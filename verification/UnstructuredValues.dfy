/** The values an unstructured object or spec can hold. */
module UnstructuredValues {
  datatype Json =
    | JNull
    | JBool(flag: bool)
    | JInt(number: int)
    | JString(text: string)
    | JList(items: seq<Json>)
    | JMap(fields: map<string, Json>)
}
