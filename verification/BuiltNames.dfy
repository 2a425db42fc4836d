/** The names and label values that the builders make from free text: sanitised, then measured, cut and
    hashed as bytes. */
module BuiltNames {
  import opened Text
  import opened Names

  // ---- The bytes of a text -------------------------------------------------------------

  predicate Ascii(c: char) {
    c as int < 0x80
  }

  /** UTF-8 as section 3 of RFC 3629 has it, as far as it matters here: one to four bytes, ASCII as itself
      and nothing else with an ASCII byte, and no character's bytes begin another's. */
  ghost predicate SoundUtf8(u: Unicode) {
    && (forall c :: 1 <= |u.utf8(c)| <= 4)
    && (forall c | Ascii(c) :: u.utf8(c) == [c])
    && (forall c, i | !Ascii(c) && 0 <= i < |u.utf8(c)| :: !Ascii(u.utf8(c)[i]))
    && (forall c, d {:trigger Begins(u.utf8(c), u.utf8(d))} | Begins(u.utf8(c), u.utf8(d)) :: c == d)
  }

  ghost predicate Begins(x: string, y: string) {
    x <= y
  }

  function Bytes(u: Unicode, s: string): string {
    if s == "" then "" else u.utf8(s[0]) + Bytes(u, s[1..])
  }

  lemma {:induction false} BytesAppend(u: Unicode, a: string, b: string)
    ensures Bytes(u, a + b) == Bytes(u, a) + Bytes(u, b)
  {
    if a == "" {
      assert a + b == b;
    } else {
      assert (a + b)[1..] == a[1..] + b;
      BytesAppend(u, a[1..], b);
    }
  }

  lemma {:induction false} AsciiBytes(u: Unicode, s: string)
    requires SoundUtf8(u) && forall i | 0 <= i < |s| :: Ascii(s[i])
    ensures Bytes(u, s) == s
  {
    if s != "" {
      assert forall i | 0 <= i < |s[1..]| :: s[1..][i] == s[i + 1];
      AsciiBytes(u, s[1..]);
      assert s == [s[0]] + s[1..];
    }
  }

  lemma LabelBytes(u: Unicode, s: string)
    requires SoundUtf8(u) && LabelChars(s)
    ensures Bytes(u, s) == s
  {
    AsciiBytes(u, s);
  }

  lemma Comparable(x: string, y: string, z: string)
    requires x <= z && y <= z && |x| <= |y|
    ensures Begins(x, y)
  {
    assert x == z[..|x|] && y == z[..|y|];
  }

  /** Texts with a common beginning of their bytes that is long enough begin with the same character. */
  lemma SameHead(u: Unicode, c: char, d: char, z: string)
    requires SoundUtf8(u) && u.utf8(c) <= z && u.utf8(d) <= z
    ensures c == d
  {
    if |u.utf8(c)| <= |u.utf8(d)| {
      Comparable(u.utf8(c), u.utf8(d), z);
    } else {
      Comparable(u.utf8(d), u.utf8(c), z);
    }
  }

  lemma EmptyBytes(u: Unicode, s: string)
    requires SoundUtf8(u)
    ensures s == "" <==> Bytes(u, s) == ""
  {
    if s != "" {
      assert |u.utf8(s[0])| >= 1;
    }
  }

  lemma {:induction false} BytesInjective(u: Unicode, a: string, b: string)
    requires SoundUtf8(u) && Bytes(u, a) == Bytes(u, b)
    ensures a == b
  {
    EmptyBytes(u, a);
    EmptyBytes(u, b);
    if a != "" {
      SameHead(u, a[0], b[0], Bytes(u, a));
      SameRest(u.utf8(a[0]), Bytes(u, a[1..]), Bytes(u, b[1..]));
      BytesInjective(u, a[1..], b[1..]);
      assert a == [a[0]] + a[1..] && b == [b[0]] + b[1..];
    }
  }

  lemma SameRest(x: string, a: string, b: string)
    requires x + a == x + b
    ensures a == b
  {
    assert (x + a)[|x|..] == a && (x + b)[|x|..] == b;
  }

  lemma CharBytes(u: Unicode, c: char)
    requires SoundUtf8(u)
    ensures u.utf8(c) != "" && (u.utf8(c)[0] == '-' <==> c == '-')
    ensures u.utf8(c)[|u.utf8(c)| - 1] == '-' <==> c == '-'
    ensures NoDoubleDash(u.utf8(c)) && (LabelChars(u.utf8(c)) <==> LabelChars([c]))
  {
    if Ascii(c) {
      assert u.utf8(c) == [c];
    } else {
      assert !Ascii(u.utf8(c)[0]) && !Ascii(u.utf8(c)[|u.utf8(c)| - 1]);
      assert [c][0] == c;
    }
  }

  lemma GluedLabelChars(a: string, b: string)
    ensures LabelChars(a + b) <==> LabelChars(a) && LabelChars(b)
  {
    assert forall i | 0 <= i < |a| :: (a + b)[i] == a[i];
    assert forall i | 0 <= i < |b| :: (a + b)[|a| + i] == b[i];
  }

  lemma GluedDashes(a: string, b: string)
    requires NoDoubleDash(a) && NoDoubleDash(b) && (a != "" && b != "" ==> a[|a| - 1] != '-' || b[0] != '-')
    ensures NoDoubleDash(a + b)
  {
  }

  /** Encoding keeps where the dashes are, and whether there are only label characters. */
  lemma {:induction false} BytesShape(u: Unicode, s: string)
    requires SoundUtf8(u)
    ensures s != "" ==> Bytes(u, s) != "" && (Bytes(u, s)[0] == '-' <==> s[0] == '-')
    ensures s != "" ==> (Bytes(u, s)[|Bytes(u, s)| - 1] == '-' <==> s[|s| - 1] == '-')
    ensures NoDoubleDash(s) ==> NoDoubleDash(Bytes(u, s))
    ensures LabelChars(Bytes(u, s)) <==> LabelChars(s)
  {
    if s != "" {
      var rest := s[1..];
      BytesShape(u, rest);
      CharBytes(u, s[0]);
      assert s == [s[0]] + rest;
      GluedLabelChars([s[0]], rest);
      GluedLabelChars(u.utf8(s[0]), Bytes(u, rest));
      if NoDoubleDash(s) {
        assert forall i | 0 <= i < |rest| :: rest[i] == s[i + 1];
        GluedDashes(u.utf8(s[0]), Bytes(u, rest));
      }
    }
  }

  // ---- Names ---------------------------------------------------------------------------

  /** What the builders make of a text. */
  function BuiltNameOf(u: Unicode, fnv: string -> string, text: string): string {
    TrimNameOf(fnv, Bytes(u, SanitizedOf(u, text)))
  }

  lemma BuiltShape(u: Unicode, text: string)
    requires SoundUtf8(u)
    ensures var b := Bytes(u, SanitizedOf(u, text));
            && NoDoubleDash(b) && Undashed(b)
            && (LabelChars(b) <==> LabelChars(MapChars(Lowered(u, text), Separated)))
  {
    SanitizedShape(u, text);
    UndashedBytes(u, SanitizedOf(u, text));
  }

  lemma UndashedBytes(u: Unicode, s: string)
    requires SoundUtf8(u) && Undashed(s) && NoDoubleDash(s)
    ensures Undashed(Bytes(u, s)) && NoDoubleDash(Bytes(u, s)) && (LabelChars(Bytes(u, s)) <==> LabelChars(s))
  {
    BytesShape(u, s);
  }

  /** A name the builders make has, for every text of any length, 1 to 63 bytes and no double, leading or
      trailing dash. It is a label exactly when what is kept of the sanitised text's bytes are label
      characters: for a text that need not be cut, when its lowered characters all are label characters or
      separators. */
  lemma BuiltNameIsLabel(u: Unicode, fnv: string -> string, text: string)
    requires SoundFnv(fnv) && SoundUtf8(u)
    ensures Shaped(BuiltNameOf(u, fnv, text))
    ensures Label(BuiltNameOf(u, fnv, text)) <==> LabelChars(Kept(Bytes(u, SanitizedOf(u, text))))
    ensures |Bytes(u, SanitizedOf(u, text))| <= 63 ==>
              (Label(BuiltNameOf(u, fnv, text)) <==> LabelChars(MapChars(Lowered(u, text), Separated)))
  {
    BuiltShape(u, text);
    TrimNameIsLabel(fnv, Bytes(u, SanitizedOf(u, text)));
  }

  /** So on letters, digits, dashes and the five separators every built name is a label. */
  lemma AlphabetNameIsLabel(u: Unicode, fnv: string -> string, text: string)
    requires Sound(u) && SoundFnv(fnv) && SoundUtf8(u) && OnAlphabet(text)
    ensures Label(BuiltNameOf(u, fnv, text))
  {
    AlphabetIsSanitized(u, text);
    CleanNameIsLabel(u, fnv, text);
  }

  lemma CleanNameIsLabel(u: Unicode, fnv: string -> string, text: string)
    requires SoundFnv(fnv) && SoundUtf8(u) && LabelChars(SanitizedOf(u, text))
    ensures Label(BuiltNameOf(u, fnv, text))
  {
    LabelBytes(u, SanitizedOf(u, text));
    KeptIsClean(SanitizedOf(u, text));
    BuiltNameIsLabel(u, fnv, text);
  }

  lemma KeptIsClean(s: string)
    requires LabelChars(s)
    ensures LabelChars(Kept(s))
  {
  }

  ghost predicate FixedAndBlack(u: Unicode, c: char) {
    u.lower(c) == c && !u.space(c)
  }

  /** Any character that lower case and trimming leave alone and that is neither a label character nor a
      separator comes out of the builders unchanged, so what they make is no label. */
  lemma StrangeCharSurvives(u: Unicode, fnv: string -> string, c: char)
    requires Sound(u) && SoundFnv(fnv) && SoundUtf8(u)
    requires FixedAndBlack(u, c) && !Alnum(c) && c != '-' && !Separator(c)
    ensures BuiltNameOf(u, fnv, ['a', c, 'b']) == Bytes(u, ['a', c, 'b']) && !Label(Bytes(u, ['a', c, 'b']))
  {
    var s := ['a', c, 'b'];
    assert s[1] == c;
    SettledIsFixed(u, s);
    BytesShape(u, s);
    ThreeBytes(u, c);
    FittingName(u, fnv, s);
  }

  lemma ThreeBytes(u: Unicode, c: char)
    requires SoundUtf8(u)
    ensures Bytes(u, ['a', c, 'b']) == "a" + u.utf8(c) + "b"
  {
    assert ['a', c, 'b'] == "a" + ([c] + "b");
    BytesAppend(u, "a", [c] + "b");
    BytesAppend(u, [c], "b");
    AsciiBytes(u, "a");
    AsciiBytes(u, "b");
    CharacterBytes(u, c);
  }

  lemma CharacterBytes(u: Unicode, c: char)
    ensures Bytes(u, [c]) == u.utf8(c)
  {
    assert [c][1..] == "" && Bytes(u, "") == "";
  }

  /** A text that fits is its own name. */
  lemma FittingName(u: Unicode, fnv: string -> string, text: string)
    requires SoundFnv(fnv) && SoundUtf8(u) && 1 <= |Bytes(u, SanitizedOf(u, text))| <= 63
    ensures BuiltNameOf(u, fnv, text) == Bytes(u, SanitizedOf(u, text))
  {
    BuiltShape(u, text);
    TrimNameIsLabel(fnv, Bytes(u, SanitizedOf(u, text)));
  }

  /** The at sign is such a character. */
  lemma AtSignSurvives(u: Unicode, fnv: string -> string)
    requires Sound(u) && SoundFnv(fnv) && SoundUtf8(u) && FixedAndBlack(u, '@')
    ensures BuiltNameOf(u, fnv, ['a', '@', 'b']) == ['a', '@', 'b'] && !Label(['a', '@', 'b'])
  {
    StrangeAsciiSurvives(u, fnv, '@');
  }

  lemma StrangeAsciiSurvives(u: Unicode, fnv: string -> string, c: char)
    requires Sound(u) && SoundFnv(fnv) && SoundUtf8(u) && Ascii(c)
    requires FixedAndBlack(u, c) && !Alnum(c) && c != '-' && !Separator(c)
    ensures BuiltNameOf(u, fnv, ['a', c, 'b']) == ['a', c, 'b'] && !Label(['a', c, 'b'])
  {
    StrangeCharSurvives(u, fnv, c);
    ThreeBytes(u, c);
  }

  // ---- Label values --------------------------------------------------------------------

  function LabelValueOf(u: Unicode, fnv: string -> string, value: string): string {
    Unfallen(BuiltNameOf(u, fnv, value))
  }

  function Unfallen(name: string): string {
    var s := Trim(name, Dash);
    if s == "" then "unknown" else s
  }

  /** A label value is, for every string, 1 to 63 bytes long without double, leading or trailing dash, and
      never the last fallback of the source: trimming a name cannot leave nothing. */
  lemma LabelValueIsStable(u: Unicode, fnv: string -> string, value: string)
    requires SoundFnv(fnv) && SoundUtf8(u)
    ensures Shaped(LabelValueOf(u, fnv, value))
    ensures LabelValueOf(u, fnv, value) == BuiltNameOf(u, fnv, value)
  {
    BuiltNameIsLabel(u, fnv, value);
    LabelValueOfName(BuiltNameOf(u, fnv, value));
  }

  lemma LabelValueOfName(s: string)
    requires Shaped(s)
    ensures Unfallen(s) == s
  {
    TrimNothing(s);
  }

  /** Characters another round leaves alone. */
  ghost predicate Settled(u: Unicode, s: string) {
    forall c | c in s :: u.lower(c) == c && !Separator(c)
  }

  ghost predicate EndsClear(u: Unicode, r: string) {
    r != "" && !u.space(r[0]) && !u.space(r[|r| - 1])
  }

  lemma SettledIsFixed(u: Unicode, s: string)
    requires Clean(u, s) && EndsClear(u, s)
    ensures SanitizedOf(u, s) == s
  {
    LoweredIsFixed(u, s);
    RewrittenIsFixed(u, s);
  }

  lemma LoweredIsFixed(u: Unicode, s: string)
    requires Settled(u, s) && EndsClear(u, s)
    ensures Lowered(u, s) == s
  {
    TrimFixes(s, u.space);
    SettledIsMapped(u, s);
  }

  lemma RewrittenIsFixed(u: Unicode, s: string)
    requires Clean(u, s)
    ensures Rewritten(s) == s
  {
    SettledIsMapped(u, s);
    CollapseFixes(s);
    TrimNothing(s);
  }

  lemma SettledIsMapped(u: Unicode, s: string)
    requires Settled(u, s)
    ensures MapChars(s, u.lower) == s && MapChars(s, Separated) == s
  {
    assert forall i | 0 <= i < |s| :: s[i] in s;
  }

  lemma {:induction false} CollapseAdds(s: string)
    ensures forall c | c in Collapse(s) :: c in s
  {
    if s != "" {
      CollapseAdds(s[1..]);
    }
  }

  lemma SanitizedIsSettled(u: Unicode, value: string)
    requires Sound(u) && LowersOnce(u)
    ensures Settled(u, SanitizedOf(u, value))
  {
    var text := Lowered(u, value);
    MappedIsSettled(u, Trim(value, u.space));
    CollapsedIsSettled(u, MapChars(text, Separated));
  }

  lemma MappedIsSettled(u: Unicode, s: string)
    requires Sound(u) && LowersOnce(u)
    ensures Settled(u, MapChars(MapChars(s, u.lower), Separated))
  {
    var mapped := MapChars(MapChars(s, u.lower), Separated);
    forall c | c in mapped
      ensures u.lower(c) == c && !Separator(c)
    {
      var i :| 0 <= i < |mapped| && mapped[i] == c;
      assert mapped[i] == Separated(u.lower(s[i]));
    }
  }

  lemma CollapsedIsSettled(u: Unicode, s: string)
    requires Settled(u, s)
    ensures Settled(u, Trim(Collapse(s), Dash))
  {
    CollapseAdds(s);
    TrimIsSettled(u, Collapse(s));
  }

  lemma TrimIsSettled(u: Unicode, s: string)
    requires Settled(u, s)
    ensures Settled(u, Trim(s, Dash))
  {
    forall c | c !in s
      ensures c !in Trim(s, Dash)
    {
      TrimLacks(s, Dash, c);
    }
  }

  ghost predicate LowersOnce(u: Unicode) {
    forall c :: u.lower(u.lower(c)) == u.lower(c)
  }

  /** How the ends of a value's text relate to the ends of the sanitised text. */
  ghost predicate SameEdges(u: Unicode, s: string, t: string) {
    && t != "" && (s == "" ==> Alnum(t[0]) && Alnum(t[|t| - 1])) && (s != "" && |Bytes(u, s)| <= 63 ==> t == s)
    && (|Bytes(u, s)| > 63 ==> s != "" && t[0] == s[0] && Alnum(t[|t| - 1]))
  }

  // ---- The text of a cut name ----------------------------------------------------------

  /** When a text's bytes are the beginning of another's, cut somewhere, with a dash and ASCII behind it,
      then the text is a beginning of the other with the same behind it: the cut is between characters. */
  lemma {:induction false} CutText(u: Unicode, t: string, s: string, m: nat, tail: string) returns (j: nat)
    requires SoundUtf8(u) && m <= |Bytes(u, s)| && (forall i | 0 <= i < |tail| :: Ascii(tail[i]))
    requires tail != "" && Bytes(u, t) == Bytes(u, s)[..m] + tail
    ensures j <= |s| && t == s[..j] + tail && Bytes(u, s[..j]) == Bytes(u, s)[..m]
    decreases |s|
  {
    if m == 0 {
      j := 0;
      AsciiBytes(u, tail);
      assert Bytes(u, s)[..0] + tail == tail;
      BytesInjective(u, t, tail);
      assert s[..0] + tail == tail;
    } else {
      EmptyBytes(u, s);
      EmptyBytes(u, t);
      var head := u.utf8(s[0]);
      HeadFits(u, t, s, m, tail);
      var k := |head|;
      assert Bytes(u, s)[..m] == head + Bytes(u, s[1..])[..m - k];
      assert head + Bytes(u, s[1..])[..m - k] + tail == head + (Bytes(u, s[1..])[..m - k] + tail);
      SameRest(head, Bytes(u, t[1..]), Bytes(u, s[1..])[..m - k] + tail);
      var i := CutText(u, t[1..], s[1..], m - k, tail);
      j := i + 1;
      assert s[..j] == [s[0]] + s[1..][..i] && s[..j][1..] == s[1..][..i];
      assert t == [t[0]] + t[1..];
      assert [s[0]] + s[1..][..i] + tail == [s[0]] + (s[1..][..i] + tail);
    }
  }

  lemma HeadFits(u: Unicode, t: string, s: string, m: nat, tail: string)
    requires SoundUtf8(u) && 0 < m <= |Bytes(u, s)| && tail != "" && Ascii(tail[0]) && s != "" && t != ""
    requires Bytes(u, t) == Bytes(u, s)[..m] + tail
    ensures t[0] == s[0] && |u.utf8(s[0])| <= m
  {
    var b, z := Bytes(u, s)[..m], Bytes(u, t);
    var x, y := u.utf8(t[0]), u.utf8(s[0]);
    assert x <= z && y <= Bytes(u, s);
    if |x| <= m {
      assert x <= Bytes(u, s) by {
        assert x == z[..|x|] == b[..|x|] == Bytes(u, s)[..|x|];
      }
      SameHead(u, t[0], s[0], Bytes(u, s));
    } else {
      LongHead(u, t[0], x, z, m);
    }
  }

  /** A character longer than the cut would hold the ASCII byte behind it, and start with the byte before. */
  lemma LongHead(u: Unicode, c: char, x: string, z: string, m: nat)
    requires SoundUtf8(u) && x == u.utf8(c) && x <= z && 0 < m < |x|
    ensures !Ascii(z[m])
  {
    assert z[m] == x[m];
    assert Ascii(c) ==> |x| == 1;
  }

  // ---- Another round -------------------------------------------------------------------

  /** The sanitised text does not begin with white space, nor end with it where its end is kept. */
  ghost predicate EdgesClear(u: Unicode, s: string) {
    s != "" ==> !u.space(s[0]) && (|Bytes(u, s)| <= 63 ==> !u.space(s[|s| - 1]))
  }

  /** Another round leaves the text t as it is. */
  ghost predicate Stable(u: Unicode, fnv: string -> string, t: string) {
    LabelValueOf(u, fnv, t) == Bytes(u, t)
  }

  /** A second round, over the text t that a label value is, changes nothing exactly when stripping the
      dashes of the first round exposed no white space. */
  lemma LabelValueIsIdempotent(u: Unicode, fnv: string -> string, value: string, t: string)
    requires Sound(u) && SoundFnv(fnv) && SoundUtf8(u) && LowersOnce(u)
    requires Bytes(u, t) == LabelValueOf(u, fnv, value)
    ensures Stable(u, fnv, t) <==> EdgesClear(u, SanitizedOf(u, value))
  {
    ValueText(u, fnv, value, t);
    ClearEdges(u, SanitizedOf(u, value), t);
    AnotherRound(u, fnv, t);
  }

  /** Nothing for another round to lower, replace, collapse or strip. */
  ghost predicate Clean(u: Unicode, t: string) {
    Settled(u, t) && NoDoubleDash(t) && Undashed(t)
  }

  /** A text another round keeps but for white space at its ends. */
  ghost predicate Nearly(u: Unicode, t: string) {
    t != "" && Clean(u, t) && |Bytes(u, t)| <= 63
  }

  lemma ValueText(u: Unicode, fnv: string -> string, value: string, t: string)
    requires Sound(u) && SoundFnv(fnv) && SoundUtf8(u) && LowersOnce(u)
    requires Bytes(u, t) == LabelValueOf(u, fnv, value)
    ensures Nearly(u, t) && SameEdges(u, SanitizedOf(u, value), t)
  {
    SanitizedShape(u, value);
    SanitizedIsSettled(u, value);
    LabelValueIsStable(u, fnv, value);
    BuiltShape(u, value);
    TrimNameIsHashed(fnv, Bytes(u, SanitizedOf(u, value)));
    HashedText(u, fnv, SanitizedOf(u, value), t);
  }

  lemma HashedText(u: Unicode, fnv: string -> string, s: string, t: string)
    requires Sound(u) && SoundFnv(fnv) && SoundUtf8(u) && Clean(u, s)
    requires Bytes(u, t) == Hashed(fnv, Bytes(u, s))
    ensures Nearly(u, t) && SameEdges(u, s, t)
  {
    HashedFits(u, fnv, s, t);
    EmptyBytes(u, s);
    if s == "" {
      FallbackText(u, t);
    } else if |Bytes(u, s)| <= 63 {
      BytesInjective(u, t, s);
    } else {
      LongText(u, fnv, s, t);
    }
  }

  lemma HashedFits(u: Unicode, fnv: string -> string, s: string, t: string)
    requires SoundFnv(fnv) && SoundUtf8(u) && Clean(u, s) && Bytes(u, t) == Hashed(fnv, Bytes(u, s))
    ensures t != "" && |Bytes(u, t)| <= 63
  {
    UndashedBytes(u, s);
    HashedIsLabel(fnv, Bytes(u, s));
    EmptyBytes(u, t);
  }

  lemma FallbackText(u: Unicode, t: string)
    requires Sound(u) && SoundUtf8(u) && Bytes(u, t) == "dpu-object"
    ensures t != "" && Clean(u, t) && Alnum(t[0]) && Alnum(t[|t| - 1])
  {
    FallbackBytes(u, t);
    FallbackIsClean(u, t);
  }

  lemma FallbackIsClean(u: Unicode, t: string)
    requires Sound(u) && t == "dpu-object"
    ensures t != "" && Clean(u, t) && Alnum(t[0]) && Alnum(t[|t| - 1])
  {
    assert forall i | 0 <= i < |t| :: Alnum(t[i]) || t[i] == '-';
  }

  lemma FallbackBytes(u: Unicode, t: string)
    requires SoundUtf8(u) && Bytes(u, t) == "dpu-object"
    ensures t == "dpu-object"
  {
    AsciiBytes(u, "dpu-object");
    BytesInjective(u, t, "dpu-object");
  }

  lemma LongText(u: Unicode, fnv: string -> string, s: string, t: string)
    requires Sound(u) && SoundFnv(fnv) && SoundUtf8(u) && Clean(u, s) && |Bytes(u, s)| > 63
    requires Bytes(u, t) == Hashed(fnv, Bytes(u, s))
    ensures s != "" && t != "" && t[0] == s[0] && Alnum(t[|t| - 1]) && Clean(u, t)
  {
    var hash := fnv(Bytes(u, s));
    assert HexWord(hash, 8);
    LongPrefix(u, s);
    var m := |Trim(Bytes(u, s)[..54], Dash)|;
    assert Bytes(u, t) == Bytes(u, s)[..m] + "-" + hash;
    var j := CutNameText(u, s, t, m, hash);
    CutNameIsClean(u, s, j, hash);
  }

  /** What is kept of a long text is a beginning of it that does not end in a dash. */
  lemma LongPrefix(u: Unicode, s: string)
    requires SoundUtf8(u) && NoDoubleDash(s) && Undashed(s) && |Bytes(u, s)| > 63
    ensures var x := Trim(Bytes(u, s)[..54], Dash);
            0 < |x| <= 54 && x == Bytes(u, s)[..|x|] && Bytes(u, s)[|x| - 1] != '-'
  {
    UndashedBytes(u, s);
    var cut := Bytes(u, s)[..54];
    assert cut[0] == Bytes(u, s)[0];
    HeadSurvives(cut);
    TrimIsPrefix(cut);
  }

  lemma CutNameText(u: Unicode, s: string, t: string, m: nat, hash: string) returns (j: nat)
    requires SoundUtf8(u) && HexWord(hash, 8) && 0 < m <= |Bytes(u, s)| && Bytes(u, s)[m - 1] != '-'
    requires Bytes(u, t) == Bytes(u, s)[..m] + "-" + hash
    ensures 0 < j <= |s| && t == s[..j] + "-" + hash && s[j - 1] != '-'
  {
    var tail := "-" + hash;
    assert forall i | 0 < i < 9 :: tail[i] == hash[i - 1];
    assert Bytes(u, s)[..m] + "-" + hash == Bytes(u, s)[..m] + tail;
    j := CutText(u, t, s, m, tail);
    assert s[..j] + "-" + hash == s[..j] + tail;
    EmptyBytes(u, s[..j]);
    BytesShape(u, s[..j]);
  }

  lemma CutNameIsClean(u: Unicode, s: string, j: nat, hash: string)
    requires Sound(u) && Clean(u, s) && 0 < j <= |s| && s[j - 1] != '-' && HexWord(hash, 8)
    ensures var t := s[..j] + "-" + hash;
            t[0] == s[0] && Alnum(t[|t| - 1]) && Clean(u, t)
  {
    assert forall i | 0 <= i < j :: s[..j][i] == s[i];
    Glue(s[..j], hash);
    SettledGlue(u, s, j, hash);
  }

  lemma TrimIsPrefix(s: string)
    requires s != "" && s[0] != '-'
    ensures Trim(s, Dash) == s[..|Trim(s, Dash)|]
  {
  }

  lemma SettledGlue(u: Unicode, s: string, j: nat, hash: string)
    requires Sound(u) && Settled(u, s) && j <= |s| && HexWord(hash, 8)
    ensures Settled(u, s[..j] + "-" + hash) && Alnum((s[..j] + "-" + hash)[j + 8])
  {
    var r := s[..j] + "-" + hash;
    assert forall i | 0 <= i < 8 :: Alnum(hash[i]);
    assert r[j + 8] == hash[7];
    forall c | c in r
      ensures u.lower(c) == c && !Separator(c)
    {
      assert c in s[..j] || c == '-' || c in hash;
    }
  }

  lemma ClearEdges(u: Unicode, s: string, t: string)
    requires Sound(u) && SameEdges(u, s, t)
    ensures EdgesClear(u, s) <==> EndsClear(u, t)
  {
  }

  lemma AnotherRound(u: Unicode, fnv: string -> string, t: string)
    requires Sound(u) && SoundFnv(fnv) && SoundUtf8(u) && Nearly(u, t)
    ensures Stable(u, fnv, t) <==> EndsClear(u, t)
  {
    EmptyBytes(u, t);
    if EndsClear(u, t) {
      SettledIsFixed(u, t);
      ShortValue(u, fnv, t);
    } else {
      SecondRoundShrinks(u, fnv, t);
    }
  }

  lemma ShortValue(u: Unicode, fnv: string -> string, value: string)
    requires SoundFnv(fnv) && SoundUtf8(u) && 1 <= |Bytes(u, SanitizedOf(u, value))| <= 63
    ensures LabelValueOf(u, fnv, value) == Bytes(u, SanitizedOf(u, value))
  {
    LabelValueIsStable(u, fnv, value);
    FittingName(u, fnv, value);
  }

  /** Exposed white space is lost in the next round. */
  lemma SecondRoundShrinks(u: Unicode, fnv: string -> string, t: string)
    requires Sound(u) && SoundFnv(fnv) && SoundUtf8(u) && Nearly(u, t) && !EndsClear(u, t)
    ensures !Stable(u, fnv, t)
  {
    SecondIsShorter(u, t);
    EmptyBytes(u, SanitizedOf(u, t));
    if SanitizedOf(u, t) == "" {
      EmptySecond(u, fnv, t);
    } else {
      ShortSecond(u, fnv, t);
    }
  }

  lemma EmptySecond(u: Unicode, fnv: string -> string, t: string)
    requires Sound(u) && SoundFnv(fnv) && SoundUtf8(u) && !EndsClear(u, t) && SanitizedOf(u, t) == ""
    ensures !Stable(u, fnv, t)
  {
    EmptyValue(u, fnv, t);
    IsNotFallback(u, t);
  }

  lemma IsNotFallback(u: Unicode, t: string)
    requires Sound(u) && SoundUtf8(u) && !EndsClear(u, t)
    ensures Bytes(u, t) != "dpu-object"
  {
    if Bytes(u, t) == "dpu-object" {
      FallbackText(u, t);
    }
  }

  lemma ShortSecond(u: Unicode, fnv: string -> string, t: string)
    requires SoundFnv(fnv) && SoundUtf8(u) && 1 <= |Bytes(u, SanitizedOf(u, t))| <= 63 && SanitizedOf(u, t) != t
    ensures !Stable(u, fnv, t)
  {
    ShortValue(u, fnv, t);
    if Bytes(u, SanitizedOf(u, t)) == Bytes(u, t) {
      BytesInjective(u, SanitizedOf(u, t), t);
    }
  }

  lemma EmptyValue(u: Unicode, fnv: string -> string, value: string)
    requires SoundFnv(fnv) && SoundUtf8(u) && SanitizedOf(u, value) == ""
    ensures LabelValueOf(u, fnv, value) == "dpu-object"
  {
    LabelValueIsStable(u, fnv, value);
    assert Bytes(u, "") == "";
    assert TrimNameOf(fnv, "") == "dpu-object";
  }

  /** Of a settled text with white space at an end another round keeps less. */
  lemma SecondIsShorter(u: Unicode, t: string)
    requires Nearly(u, t) && !EndsClear(u, t)
    ensures SanitizedOf(u, t) != t && |Bytes(u, SanitizedOf(u, t))| <= |Bytes(u, t)|
  {
    var w := Trim(t, u.space);
    TrimShortens(t, u.space);
    var i := TrimIsSlice(t, u.space);
    SliceIsSettled(u, t, i, i + |w|);
    RewrittenSlice(u, t, w);
    TrimFewer(u, t, u.space);
    TrimFewer(u, w, Dash);
  }

  lemma TrimFewer(u: Unicode, s: string, drop: char -> bool)
    ensures |Trim(s, drop)| <= |s| && |Bytes(u, Trim(s, drop))| <= |Bytes(u, s)|
  {
    var a := TrimIsSlice(s, drop);
    FewerBytes(u, s, a, a + |Trim(s, drop)|);
  }

  lemma SliceIsSettled(u: Unicode, t: string, a: nat, b: nat)
    requires Settled(u, t) && NoDoubleDash(t) && a <= b <= |t|
    ensures Settled(u, t[a..b]) && NoDoubleDash(t[a..b])
  {
    SliceKeeps(t, a, b);
  }

  lemma RewrittenSlice(u: Unicode, t: string, w: string)
    requires w == Trim(t, u.space) && Settled(u, w) && NoDoubleDash(w)
    ensures SanitizedOf(u, t) == Trim(w, Dash)
  {
    SettledIsMapped(u, w);
    CollapseFixes(w);
  }

  lemma FewerBytes(u: Unicode, t: string, a: nat, b: nat)
    requires a <= b <= |t|
    ensures |Bytes(u, t[a..b])| <= |Bytes(u, t)|
  {
    assert t == t[..a] + t[a..b] + t[b..];
    BytesAppend(u, t[..a] + t[a..b], t[b..]);
    BytesAppend(u, t[..a], t[a..b]);
  }

  lemma TrimShortens(r: string, drop: char -> bool)
    requires r != "" && (drop(r[0]) || drop(r[|r| - 1]))
    ensures |Trim(r, drop)| < |r|
  {
    if drop(r[0]) {
      assert |TrimLeft(r, drop)| < |r|;
    }
  }

  /** On the common alphabet there is no white space to expose. */
  lemma AlphabetValueIsIdempotent(u: Unicode, fnv: string -> string, value: string)
    requires Sound(u) && SoundFnv(fnv) && SoundUtf8(u) && LowersOnce(u) && OnAlphabet(value)
    ensures var r := LabelValueOf(u, fnv, value); Label(r) && LabelValueOf(u, fnv, r) == r
  {
    var r := LabelValueOf(u, fnv, value);
    AlphabetIsSanitized(u, value);
    AlphabetNameIsLabel(u, fnv, value);
    LabelValueIsStable(u, fnv, value);
    LabelBytes(u, r);
    LabelCharsAreClear(u, SanitizedOf(u, value));
    LabelValueIsIdempotent(u, fnv, value, r);
  }

  lemma LabelCharsAreClear(u: Unicode, s: string)
    requires Sound(u) && LabelChars(s)
    ensures EdgesClear(u, s)
  {
  }

  /** A word a round leaves alone. */
  ghost predicate Word(u: Unicode, t: string) {
    Clean(u, t) && EndsClear(u, t)
  }

  /** Any white space that lower case leaves alone, other than the blank that becomes a dash, is such a
      failure between a leading dash and a word: the first round exposes it and the second loses it. */
  lemma WhiteSpaceIsNotStable(u: Unicode, fnv: string -> string, c: char, t: string)
    requires Sound(u) && SoundFnv(fnv) && SoundUtf8(u) && u.space(c) && u.lower(c) == c && !Separator(c)
    requires Word(u, t) && |Bytes(u, [c] + t)| <= 63
    ensures LabelValueOf(u, fnv, "-" + ([c] + t)) == Bytes(u, [c] + t)
    ensures LabelValueOf(u, fnv, [c] + t) == Bytes(u, t)
  {
    SpaceIsExposed(u, c, t);
    SpaceIsLost(u, c, t);
    EmptyBytes(u, [c] + t);
    EmptyBytes(u, t);
    BytesAppend(u, [c], t);
    ShortValue(u, fnv, "-" + ([c] + t));
    ShortValue(u, fnv, [c] + t);
  }

  /** A tab is such a character. */
  lemma TabIsNotStable(u: Unicode, fnv: string -> string)
    requires Sound(u) && SoundFnv(fnv) && SoundUtf8(u) && u.space('\t') && u.lower('\t') == '\t'
    ensures LabelValueOf(u, fnv, "-\ta") == "\ta" && LabelValueOf(u, fnv, "\ta") == "a"
  {
    assert "-" + (['\t'] + "a") == "-\ta" && ['\t'] + "a" == "\ta";
    AsciiBytes(u, "\ta");
    AsciiBytes(u, "a");
    WhiteSpaceIsNotStable(u, fnv, '\t', "a");
  }

  lemma SpaceIsExposed(u: Unicode, c: char, t: string)
    requires Sound(u) && u.space(c) && u.lower(c) == c && !Separator(c) && Word(u, t)
    ensures SanitizedOf(u, "-" + ([c] + t)) == [c] + t
  {
    assert forall i | 0 < i <= |t| :: ([c] + t)[i] == t[i - 1];
    ExposedAfterDash(u, [c] + t);
  }

  lemma ExposedAfterDash(u: Unicode, w: string)
    requires Sound(u) && Clean(u, w) && w != "" && !u.space(w[|w| - 1])
    ensures SanitizedOf(u, "-" + w) == w
  {
    AfterDash(u, w);
    LoweredIsFixed(u, "-" + w);
    RewrittenAfterDash(u, w);
  }

  lemma AfterDash(u: Unicode, w: string)
    requires Sound(u) && Clean(u, w) && w != "" && !u.space(w[|w| - 1])
    ensures NoDoubleDash("-" + w) && Settled(u, "-" + w) && EndsClear(u, "-" + w)
  {
    var s := "-" + w;
    assert forall i | 0 < i < |s| :: s[i] == w[i - 1];
  }

  lemma RewrittenAfterDash(u: Unicode, w: string)
    requires Settled(u, "-" + w) && NoDoubleDash("-" + w) && Undashed(w) && w != ""
    ensures Rewritten("-" + w) == w
  {
    SettledIsMapped(u, "-" + w);
    CollapseFixes("-" + w);
    TrimFirst('-', w, Dash);
  }

  lemma SpaceIsLost(u: Unicode, c: char, t: string)
    requires u.space(c) && Word(u, t)
    ensures SanitizedOf(u, [c] + t) == t
  {
    LoweredAfterSpace(u, c, t);
    RewrittenIsFixed(u, t);
  }

  lemma LoweredAfterSpace(u: Unicode, c: char, t: string)
    requires u.space(c) && Word(u, t)
    ensures Lowered(u, [c] + t) == t
  {
    TrimFirst(c, t, u.space);
    SettledIsMapped(u, t);
  }
}
