/** The two name normalisers, a one-pass scanner and a rewrite loop, and the names built on them.
    A label is a DNS label as in section 2.1 of RFC 1123, of at most 63 octets as in section 2.3.4
    of RFC 1035. */
module Names {
  import opened Text

  /** Rune-wise lower case and white space, as far as the source takes them from its platform, and the
      bytes of a character. */
  datatype Unicode = Unicode(lower: char -> char, space: char -> bool, utf8: char -> string)

  predicate Alnum(c: char) {
    'a' <= c <= 'z' || '0' <= c <= '9'
  }

  predicate Upper(c: char) {
    'A' <= c <= 'Z'
  }

  predicate Separator(c: char) {
    c == ':' || c == '.' || c == '_' || c == '/' || c == ' '
  }

  ghost predicate Sound(u: Unicode) {
    && (forall c | Alnum(c) || c == '-' || Separator(c) :: u.lower(c) == c)
    && (forall c | Upper(c) :: Alnum(u.lower(c)))
    && (forall c | Alnum(c) || Upper(c) || c == '-' || (Separator(c) && c != ' ') :: !u.space(c))
    && u.space(' ')
  }

  /** ASCII letters, digits, dashes and the five separators. */
  ghost predicate OnAlphabet(s: string) {
    forall i | 0 <= i < |s| :: Alnum(s[i]) || Upper(s[i]) || s[i] == '-' || Separator(s[i])
  }

  ghost predicate NoDoubleDash(s: string) {
    forall i, j | 0 <= i < j < |s| && j == i + 1 :: s[i] != '-' || s[j] != '-'
  }

  ghost predicate LabelChars(s: string) {
    forall i | 0 <= i < |s| :: Alnum(s[i]) || s[i] == '-'
  }

  ghost predicate Undashed(s: string) {
    s != "" ==> s[0] != '-' && s[|s| - 1] != '-'
  }

  ghost predicate Label(s: string) {
    1 <= |s| <= 63 && LabelChars(s) && Undashed(s)
  }

  // ---- Collapsing dash runs ------------------------------------------------------------

  /** Every run of dashes becomes one dash. */
  function Collapse(s: string): string {
    if s == "" then ""
    else if |s| > 1 && s[0] == '-' && s[1] == '-' then Collapse(s[1..])
    else [s[0]] + Collapse(s[1..])
  }

  lemma {:induction false} CollapseShape(s: string)
    ensures NoDoubleDash(Collapse(s)) && |Collapse(s)| <= |s|
    ensures s != "" ==> Collapse(s) != "" && Collapse(s)[0] == s[0] && Collapse(s)[|Collapse(s)| - 1] == s[|s| - 1]
  {
    if |s| > 1 {
      CollapseShape(s[1..]);
    }
  }

  lemma LabelCharsCons(c: char, s: string)
    ensures LabelChars([c] + s) <==> (Alnum(c) || c == '-') && LabelChars(s)
  {
    assert ([c] + s)[0] == c;
    assert forall i | 0 <= i < |s| :: ([c] + s)[i + 1] == s[i];
  }

  lemma {:induction false} CollapseLabelChars(s: string)
    ensures LabelChars(Collapse(s)) <==> LabelChars(s)
  {
    if s != "" {
      CollapseLabelChars(s[1..]);
      assert s == [s[0]] + s[1..];
      LabelCharsCons(s[0], s[1..]);
      LabelCharsCons(s[0], Collapse(s[1..]));
    }
  }

  /** One more character at the end. */
  lemma {:induction false} CollapseSnoc(s: string, c: char)
    ensures Collapse(s + [c]) == if c == '-' && s != "" && s[|s| - 1] == '-' then Collapse(s) else Collapse(s) + [c]
  {
    if s != "" {
      assert (s + [c])[1..] == s[1..] + [c];
      CollapseSnoc(s[1..], c);
      if |s| == 1 {
        assert s[1..] == "";
      }
    }
  }

  lemma {:induction false} CollapseFixes(s: string)
    requires NoDoubleDash(s)
    ensures Collapse(s) == s
  {
    if s != "" {
      assert forall i | 0 <= i < |s[1..]| :: s[1..][i] == s[i + 1];
      CollapseFixes(s[1..]);
    }
  }

  // ---- One left-to-right replacement of "--" by "-" ------------------------------------

  function ReplaceDouble(s: string): string {
    if |s| < 2 then s
    else if s[0] == '-' && s[1] == '-' then "-" + ReplaceDouble(s[2..])
    else [s[0]] + ReplaceDouble(s[1..])
  }

  predicate ContainsDouble(s: string) {
    exists i | 0 <= i < |s| - 1 :: s[i] == '-' && s[i + 1] == '-'
  }

  /** A replacement keeps the collapsed form, and shortens the string while a double dash is left. */
  lemma {:induction false} ReplaceKeepsCollapse(s: string)
    ensures Collapse(ReplaceDouble(s)) == Collapse(s)
    ensures |ReplaceDouble(s)| <= |s|
    ensures ContainsDouble(s) ==> |ReplaceDouble(s)| < |s|
    ensures s != "" ==> ReplaceDouble(s) != "" && ReplaceDouble(s)[0] == s[0]
    decreases |s|
  {
    if |s| >= 2 {
      if s[0] == '-' && s[1] == '-' {
        var rest := s[2..];
        ReplaceKeepsCollapse(rest);
        assert s[1..][1..] == rest;
        assert ("-" + ReplaceDouble(rest))[1..] == ReplaceDouble(rest);
        if rest != "" {
          assert ReplaceDouble(rest)[0] == rest[0];
        }
      } else {
        var rest := s[1..];
        ReplaceKeepsCollapse(rest);
        assert ([s[0]] + ReplaceDouble(rest))[1..] == ReplaceDouble(rest);
        if ContainsDouble(s) {
          var i :| 0 <= i < |s| - 1 && s[i] == '-' && s[i + 1] == '-';
          assert rest[i - 1] == '-' && rest[i] == '-';
        }
      }
    }
  }

  // ---- The words of a string -----------------------------------------------------------

  /** The maximal dash-free pieces of a string, in order. */
  function Words(s: string): (w: seq<string>)
    ensures s != "" && s[0] != '-' ==> w != []
  {
    if s == "" then []
    else if s[0] == '-' then Words(s[1..])
    else if |s| == 1 || s[1] == '-' then [[s[0]]] + Words(s[1..])
    else
      var w := Words(s[1..]);
      [[s[0]] + w[0]] + w[1..]
  }

  lemma {:induction false} TrimRightCons(c: char, x: string)
    ensures TrimRight([c] + x, Dash) == if c != '-' || TrimRight(x, Dash) != "" then [c] + TrimRight(x, Dash) else ""
  {
    if x == "" {
      assert [c] + x == [c];
      assert [c][..0] == "";
    } else {
      assert ([c] + x)[..|x|] == [c] + x[..|x| - 1];
      if x[|x| - 1] == '-' {
        TrimRightCons(c, x[..|x| - 1]);
      }
    }
  }

  lemma JoinCons(word: string, rest: seq<string>)
    ensures Join([word] + rest, '-') == if rest == [] then word else word + "-" + Join(rest, '-')
  {
    assert ([word] + rest)[1..] == rest;
  }

  lemma {:induction false} WordsAreNotEmpty(s: string)
    ensures forall w | w in Words(s) :: w != ""
    ensures Join(Words(s), '-') == "" <==> Words(s) == []
  {
    if s != "" {
      var rest := Words(s[1..]);
      WordsAreNotEmpty(s[1..]);
      assert Words(s) == rest || Words(s) == [[s[0]]] + rest
             || (rest != [] && Words(s) == [[s[0]] + rest[0]] + rest[1..]);
      forall w | w in Words(s)
        ensures w != ""
      {
        assert w in rest || w[0] == s[0];
      }
    }
    NonEmptyJoin(Words(s));
  }

  /** What is left once only the right end has been stripped. */
  ghost function RightStripped(s: string): string {
    if s != "" && s[0] == '-' && Words(s) != [] then "-" + Join(Words(s), '-') else Join(Words(s), '-')
  }

  lemma HeadAfterDash(c: char, rest: string)
    requires c != '-' && (rest == "" || rest[0] == '-')
    requires TrimRight(Collapse(rest), Dash) == RightStripped(rest)
    ensures TrimRight([c] + Collapse(rest), Dash) == Join([[c]] + Words(rest), '-')
  {
    TrimRightCons(c, Collapse(rest));
    JoinCons([c], Words(rest));
  }

  lemma HeadBeforeWord(c: char, rest: string)
    requires c != '-' && rest != "" && rest[0] != '-'
    requires TrimRight(Collapse(rest), Dash) == RightStripped(rest)
    ensures TrimRight([c] + Collapse(rest), Dash) == Join([[c] + Words(rest)[0]] + Words(rest)[1..], '-')
  {
    TrimRightCons(c, Collapse(rest));
    JoinGrow(c, Words(rest));
  }

  lemma {:induction false} CollapsedRightStripped(s: string)
    ensures TrimRight(Collapse(s), Dash) == RightStripped(s)
  {
    if s != "" {
      var c, rest := s[0], s[1..];
      CollapsedRightStripped(rest);
      if c != '-' {
        if rest == "" || rest[0] == '-' {
          HeadAfterDash(c, rest);
        } else {
          HeadBeforeWord(c, rest);
        }
      } else if rest == "" || rest[0] != '-' {
        TrimRightCons(c, Collapse(rest));
        WordsAreNotEmpty(rest);
      }
    }
  }

  /** Collapsing the runs and stripping the ends leaves the words, joined by single dashes. */
  lemma {:induction false} CollapsedIsJoinedWords(s: string)
    ensures Trim(Collapse(s), Dash) == Join(Words(s), '-')
  {
    if s != "" {
      if s[0] != '-' {
        CollapseShape(s);
        CollapsedRightStripped(s);
      } else {
        CollapsedIsJoinedWords(s[1..]);
        LeadingDash(s);
      }
    }
  }

  lemma LeadingDash(s: string)
    requires s != "" && s[0] == '-'
    ensures Trim(Collapse(s), Dash) == Trim(Collapse(s[1..]), Dash)
  {
    if |s| == 1 || s[1] != '-' {
      assert Collapse(s)[1..] == Collapse(s[1..]);
    }
  }

  lemma JoinGrow(c: char, w: seq<string>)
    requires w != []
    ensures Join([[c] + w[0]] + w[1..], '-') == [c] + Join(w, '-')
  {
    var grown := [[c] + w[0]] + w[1..];
    if |w| > 1 {
      assert grown[1..] == w[1..];
      assert ([c] + w[0]) + "-" + Join(w[1..], '-') == [c] + (w[0] + "-" + Join(w[1..], '-'));
    }
  }

  lemma NonEmptyJoin(w: seq<string>)
    requires forall x | x in w :: x != ""
    ensures Join(w, '-') == "" <==> w == []
  {
    if w != [] {
      assert w[0] in w;
    }
  }

  /** The maximal pieces of a string between characters that separate, in order. */
  function Pieces(s: string, separates: char -> bool): (w: seq<string>)
    ensures s != "" && !separates(s[0]) ==> w != []
  {
    if s == "" then []
    else if separates(s[0]) then Pieces(s[1..], separates)
    else if |s| == 1 || separates(s[1]) then [[s[0]]] + Pieces(s[1..], separates)
    else
      var w := Pieces(s[1..], separates);
      [[s[0]] + w[0]] + w[1..]
  }

  /** Making dashes of what separates leaves the pieces as words. */
  lemma {:induction false} PiecesAreWords(s: string, f: char -> char, separates: char -> bool)
    requires forall c :: f(c) == if separates(c) then '-' else c
    requires separates('-')
    ensures Words(MapChars(s, f)) == Pieces(s, separates)
  {
    if s != "" {
      PiecesAreWords(s[1..], f, separates);
      assert MapChars(s, f)[1..] == MapChars(s[1..], f);
    }
  }

  // ---- The one-pass scanner ------------------------------------------------------------

  function Slug(c: char): char {
    if Alnum(c) then c else '-'
  }

  function Lowered(u: Unicode, s: string): string {
    MapChars(Trim(s, u.space), u.lower)
  }

  function TrimSuffixDash(s: string): string {
    if s != "" && s[|s| - 1] == '-' then s[..|s| - 1] else s
  }

  function Scanned(u: Unicode, value: string): string {
    Trim(Collapse(MapChars(Lowered(u, value), Slug)), Dash)
  }

  function SafeNameOf(u: Unicode, value: string): string {
    Bounded(Scanned(u, value))
  }

  function Bounded(scanned: string): string {
    var name := if scanned == "" then "opi-intent" else scanned;
    if |name| > 63 then TrimSuffixDash(name[..63]) else name
  }

  method SafeName(u: Unicode, value: string) returns (r: string)
    ensures r == SafeNameOf(u, value)
  {
    var builder := Scan(Lowered(u, value));
    r := Trim(builder, Dash);
    if r == "" {
      r := "opi-intent";
    }
    if |r| > 63 {
      r := TrimSuffixDash(r[..63]);
    }
  }

  method Scan(text: string) returns (builder: string)
    ensures builder == Collapse(MapChars(text, Slug))
  {
    ghost var slugs := MapChars(text, Slug);
    builder := "";
    var lastDash := false;
    for i := 0 to |text|
      invariant builder == Collapse(slugs[..i])
      invariant lastDash <==> builder != "" && builder[|builder| - 1] == '-'
    {
      assert slugs[..i + 1] == slugs[..i] + [slugs[i]];
      CollapseSnoc(slugs[..i], slugs[i]);
      CollapseShape(slugs[..i]);
      if Alnum(text[i]) {
        builder := builder + [text[i]];
        lastDash := false;
      } else if !lastDash {
        builder := builder + "-";
        lastDash := true;
      }
    }
    assert slugs[..|text|] == slugs;
  }

  lemma TrimIsSlice(s: string, drop: char -> bool) returns (a: nat)
    ensures a + |Trim(s, drop)| <= |s| && Trim(s, drop) == s[a..a + |Trim(s, drop)|]
  {
    var left := TrimLeft(s, drop);
    a := |s| - |left|;
    var r := TrimRight(left, drop);
    assert left == s[a..] && r == left[..|r|];
  }

  lemma SliceKeeps(s: string, a: nat, b: nat)
    requires NoDoubleDash(s) && a <= b <= |s|
    ensures NoDoubleDash(s[a..b]) && (LabelChars(s) ==> LabelChars(s[a..b]))
  {
    assert forall i | 0 <= i < b - a :: s[a..b][i] == s[a + i];
  }

  lemma TrimKeeps(s: string)
    requires NoDoubleDash(s)
    ensures NoDoubleDash(Trim(s, Dash)) && Undashed(Trim(s, Dash))
    ensures LabelChars(Trim(s, Dash)) <==> LabelChars(s)
  {
    var a := TrimIsSlice(s, Dash);
    SliceKeeps(s, a, a + |Trim(s, Dash)|);
    TrimLabelChars(s);
  }

  lemma TrimLabelChars(s: string)
    ensures LabelChars(Trim(s, Dash)) <==> LabelChars(s)
  {
    LeftLabelChars(s);
    RightLabelChars(TrimLeft(s, Dash));
  }

  /** Collapsing and stripping, in one. */
  lemma CollapsedShape(s: string)
    ensures NoDoubleDash(Trim(Collapse(s), Dash)) && Undashed(Trim(Collapse(s), Dash))
    ensures LabelChars(Trim(Collapse(s), Dash)) <==> LabelChars(s)
  {
    CollapseShape(s);
    CollapseLabelChars(s);
    TrimKeeps(Collapse(s));
  }

  lemma {:induction false} LeftLabelChars(s: string)
    ensures LabelChars(TrimLeft(s, Dash)) <==> LabelChars(s)
  {
    if s != "" && s[0] == '-' {
      LeftLabelChars(s[1..]);
      assert s == [s[0]] + s[1..];
    }
  }

  lemma {:induction false} RightLabelChars(s: string)
    ensures LabelChars(TrimRight(s, Dash)) <==> LabelChars(s)
  {
    if s != "" && s[|s| - 1] == '-' {
      RightLabelChars(s[..|s| - 1]);
      assert s == s[..|s| - 1] + [s[|s| - 1]];
    }
  }

  lemma TrimNothing(s: string)
    requires Undashed(s)
    ensures Trim(s, Dash) == s && TrimSuffixDash(s) == s
  {
    assert TrimLeft(s, Dash) == s;
  }

  lemma CutKeeps(s: string, length: nat)
    requires NoDoubleDash(s) && LabelChars(s) && Undashed(s) && 1 < length <= |s|
    ensures var cut := TrimSuffixDash(s[..length]);
            length - 1 <= |cut| <= length && NoDoubleDash(cut) && LabelChars(cut) && Undashed(cut)
  {
    var cut := TrimSuffixDash(s[..length]);
    assert forall i | 0 <= i < |cut| :: cut[i] == s[i];
  }

  lemma FallbackIsLabel()
    ensures Label("opi-intent") && NoDoubleDash("opi-intent")
  {
  }

  lemma ScannedShape(u: Unicode, value: string)
    ensures NoDoubleDash(Scanned(u, value)) && LabelChars(Scanned(u, value)) && Undashed(Scanned(u, value))
  {
    CollapsedShape(MapChars(Lowered(u, value), Slug));
  }

  /** Whatever the input, the result is a label of 1 to 63 characters without double dashes. */
  lemma SafeNameIsLabel(u: Unicode, value: string)
    ensures Label(SafeNameOf(u, value)) && NoDoubleDash(SafeNameOf(u, value))
  {
    ScannedShape(u, value);
    FallbackIsLabel();
    if |Scanned(u, value)| > 63 {
      CutKeeps(Scanned(u, value), 63);
    }
  }

  /** Everything but lower-case ASCII letters and digits. */
  predicate OutsideNames(c: char) {
    !('a' <= c <= 'z') && !('0' <= c <= '9')
  }

  /** What the scanner keeps: the letters and digits of the trimmed, lowered text, with one dash for whatever
      stands between them, cut at 63 or before a dash there. */
  lemma SafeNameIsJoinedPieces(u: Unicode, value: string)
    ensures var joined := Join(Pieces(MapChars(Trim(value, u.space), u.lower), OutsideNames), '-');
            SafeNameOf(u, value) == if joined == "" then "opi-intent"
                                    else if |joined| <= 63 then joined
                                    else if joined[62] == '-' then joined[..62] else joined[..63]
  {
    var text := MapChars(Trim(value, u.space), u.lower);
    PiecesAreWords(text, Slug, OutsideNames);
    CollapsedIsJoinedWords(MapChars(text, Slug));
    BoundedIs(Scanned(u, value));
  }

  lemma BoundedIs(s: string)
    ensures Bounded(s) == if s == "" then "opi-intent"
                          else if |s| <= 63 then s
                          else if s[62] == '-' then s[..62] else s[..63]
  {
    if |s| > 63 && s[62] == '-' {
      assert s[..63][..62] == s[..62];
    }
  }

  lemma LabelIsLowered(u: Unicode, s: string)
    requires Sound(u) && LabelChars(s)
    ensures Lowered(u, s) == s
  {
    if s != "" {
      assert LabelChars(s) && !u.space(s[0]) && !u.space(s[|s| - 1]);
      assert TrimLeft(s, u.space) == s;
    }
    assert Trim(s, u.space) == s;
    forall i | 0 <= i < |s|
      ensures u.lower(s[i]) == s[i]
    {
    }
    assert MapChars(s, u.lower) == s;
  }

  /** The scanner changes nothing exactly on the labels without double dashes, so it is idempotent. */
  lemma SafeNameFixes(u: Unicode, value: string)
    requires Sound(u)
    ensures SafeNameOf(u, value) == value <==> Label(value) && NoDoubleDash(value)
    ensures SafeNameOf(u, SafeNameOf(u, value)) == SafeNameOf(u, value)
  {
    SafeNameIsLabel(u, value);
    LabelsAreFixed(u, SafeNameOf(u, value));
    if Label(value) && NoDoubleDash(value) {
      LabelsAreFixed(u, value);
    }
  }

  lemma LabelsAreFixed(u: Unicode, s: string)
    requires Sound(u) && Label(s) && NoDoubleDash(s)
    ensures SafeNameOf(u, s) == s
  {
    ScannedIsFixed(u, s);
    BoundedFixes(s);
  }

  lemma ScannedIsFixed(u: Unicode, s: string)
    requires Sound(u) && LabelChars(s) && Undashed(s) && NoDoubleDash(s)
    ensures Scanned(u, s) == s
  {
    LabelIsLowered(u, s);
    ScannedOfLowered(u, s);
    SlugsAreFixed(s);
  }

  lemma BoundedFixes(s: string)
    requires 1 <= |s| <= 63
    ensures Bounded(s) == s
  {
  }

  lemma ScannedOfLowered(u: Unicode, s: string)
    requires Lowered(u, s) == s
    ensures Scanned(u, s) == Trim(Collapse(MapChars(s, Slug)), Dash)
    ensures SanitizedOf(u, s) == Trim(Collapse(MapChars(s, Separated)), Dash)
  {
  }

  lemma SlugsAreFixed(s: string)
    requires LabelChars(s) && Undashed(s) && NoDoubleDash(s)
    ensures Trim(Collapse(MapChars(s, Slug)), Dash) == s
    ensures Trim(Collapse(MapChars(s, Separated)), Dash) == s
  {
    assert MapChars(s, Slug) == s && MapChars(s, Separated) == s;
    CollapseFixes(s);
    TrimNothing(s);
  }

  // ---- The rewrite loop ----------------------------------------------------------------

  function Separated(c: char): char {
    if Separator(c) then '-' else c
  }

  /** The fixpoint of the rewrite loop: collapse every run, strip the ends. */
  function SanitizedOf(u: Unicode, s: string): string {
    Rewritten(Lowered(u, s))
  }

  function Rewritten(text: string): string {
    Trim(Collapse(MapChars(text, Separated)), Dash)
  }

  method SanitizeName(u: Unicode, value: string) returns (s: string)
    ensures s == SanitizedOf(u, value)
    ensures s == Join(Words(MapChars(Lowered(u, value), Separated)), '-')
  {
    s := MapChars(Lowered(u, value), Separated);
    ghost var start := s;
    while ContainsDouble(s)
      invariant Collapse(s) == Collapse(start)
      decreases |s|
    {
      ReplaceKeepsCollapse(s);
      s := ReplaceDouble(s);
    }
    NothingLeft(s);
    CollapsedIsJoinedWords(start);
    s := Trim(s, Dash);
  }

  lemma NothingLeft(s: string)
    requires !ContainsDouble(s)
    ensures Collapse(s) == s
  {
    assert NoDoubleDash(s);
    CollapseFixes(s);
  }

  predicate SeparatesNames(c: char) {
    c == '-' || c == ':' || c == '.' || c == '_' || c == '/' || c == ' '
  }

  /** What the loop keeps: the pieces of the trimmed, lowered text between dashes, colons, dots, underscores,
      slashes and blanks, joined by single dashes. */
  lemma SanitizedIsJoinedPieces(u: Unicode, s: string)
    ensures SanitizedOf(u, s) == Join(Pieces(MapChars(Trim(s, u.space), u.lower), SeparatesNames), '-')
  {
    var text := MapChars(Trim(s, u.space), u.lower);
    PiecesAreWords(text, Separated, SeparatesNames);
    CollapsedIsJoinedWords(MapChars(text, Separated));
  }

  lemma AlphabetLowered(u: Unicode, s: string)
    requires Sound(u) && OnAlphabet(s)
    ensures LabelChars(MapChars(Lowered(u, s), Separated))
  {
    TrimOnAlphabet(s, u.space);
    AlphabetMapped(u, Trim(s, u.space));
  }

  lemma {:induction false} LeftOnAlphabet(s: string, drop: char -> bool)
    requires OnAlphabet(s)
    ensures OnAlphabet(TrimLeft(s, drop))
  {
    if s != "" && drop(s[0]) {
      assert forall i | 0 <= i < |s[1..]| :: s[1..][i] == s[i + 1];
      LeftOnAlphabet(s[1..], drop);
    }
  }

  lemma {:induction false} RightOnAlphabet(s: string, drop: char -> bool)
    requires OnAlphabet(s)
    ensures OnAlphabet(TrimRight(s, drop))
  {
    if s != "" && drop(s[|s| - 1]) {
      RightOnAlphabet(s[..|s| - 1], drop);
    }
  }

  lemma TrimOnAlphabet(s: string, drop: char -> bool)
    requires OnAlphabet(s)
    ensures OnAlphabet(Trim(s, drop))
  {
    LeftOnAlphabet(s, drop);
    RightOnAlphabet(TrimLeft(s, drop), drop);
  }

  lemma AlphabetChar(u: Unicode, c: char)
    requires Sound(u) && (Alnum(c) || Upper(c) || c == '-' || Separator(c))
    ensures Alnum(Separated(u.lower(c))) || Separated(u.lower(c)) == '-'
  {
  }

  lemma AlphabetMapped(u: Unicode, t: string)
    requires Sound(u) && OnAlphabet(t)
    ensures LabelChars(MapChars(MapChars(t, u.lower), Separated))
  {
    forall i | 0 <= i < |t|
      ensures Alnum(Separated(u.lower(t[i]))) || Separated(u.lower(t[i])) == '-'
    {
      AlphabetChar(u, t[i]);
    }
  }

  /** What the loop leaves has no double, leading or trailing dash, and it is made of label characters
      exactly when every character of the lowered text is one or is a separator. */
  lemma SanitizedShape(u: Unicode, value: string)
    ensures NoDoubleDash(SanitizedOf(u, value)) && Undashed(SanitizedOf(u, value))
    ensures LabelChars(SanitizedOf(u, value)) <==> LabelChars(MapChars(Lowered(u, value), Separated))
  {
    CollapsedShape(MapChars(Lowered(u, value), Separated));
  }

  /** The rewrite loop is the one-pass scanner exactly when the loop's result is a label; a longer one
      the scanner cuts. */
  lemma RewriteLoopIsScanner(u: Unicode, s: string)
    ensures SanitizedOf(u, s) == SafeNameOf(u, s) <==> 1 <= |SanitizedOf(u, s)| <= 63 && LabelChars(SanitizedOf(u, s))
    ensures LabelChars(SanitizedOf(u, s)) && |SanitizedOf(u, s)| > 63 ==>
              SafeNameOf(u, s) == TrimSuffixDash(SanitizedOf(u, s)[..63])
  {
    if LabelChars(SanitizedOf(u, s)) {
      SanitizedIsScanned(u, s);
      BoundedCases(Scanned(u, s));
    } else {
      SafeNameIsLabel(u, s);
    }
  }

  /** On letters, digits, dashes and the five separators the loop leaves only label characters. */
  lemma AlphabetIsSanitized(u: Unicode, s: string)
    requires Sound(u) && OnAlphabet(s)
    ensures LabelChars(SanitizedOf(u, s))
  {
    AlphabetLowered(u, s);
    SanitizedShape(u, s);
  }

  lemma SanitizedIsScanned(u: Unicode, s: string)
    requires LabelChars(SanitizedOf(u, s))
    ensures SanitizedOf(u, s) == Scanned(u, s)
  {
    SanitizedShape(u, s);
    SeparatedIsSlug(Lowered(u, s));
  }

  lemma SeparatedIsSlug(text: string)
    requires LabelChars(MapChars(text, Separated))
    ensures MapChars(text, Separated) == MapChars(text, Slug)
  {
    assert forall i | 0 <= i < |text| :: MapChars(text, Separated)[i] == Separated(text[i]);
  }

  lemma BoundedCases(s: string)
    ensures Bounded(s) == s <==> 1 <= |s| <= 63
    ensures |s| > 63 ==> Bounded(s) == TrimSuffixDash(s[..63])
  {
  }

  // ---- Length-bounded names ------------------------------------------------------------

  ghost predicate HexWord(s: string, length: nat) {
    |s| == length && forall i | 0 <= i < length :: '0' <= s[i] <= '9' || 'a' <= s[i] <= 'f'
  }

  /** FNV-1a in eight hexadecimal digits. */
  ghost predicate SoundFnv(fnv: string -> string) {
    forall s :: HexWord(fnv(s), 8)
  }

  /** The source's strings are bytes: what is measured, cut and hashed is the text's bytes, and a string
      here holds one byte in each place. */
  function TrimNameOf(fnv: string -> string, value: string): string {
    Hashed(fnv, Trim(value, Dash))
  }

  function Hashed(fnv: string -> string, s: string): string {
    if |s| <= 63 then if s == "" then "dpu-object" else s
    else
      var prefix := Trim(s[..54], Dash);
      (if prefix == "" then "dpu-object" else prefix) + "-" + fnv(s)
  }

  /** Of the length of a label, without double, leading or trailing dash. */
  ghost predicate Shaped(s: string) {
    1 <= |s| <= 63 && NoDoubleDash(s) && Undashed(s)
  }

  /** What of a text becomes part of its name; the rest is hashed. */
  function Kept(s: string): string {
    if |s| <= 63 then s else s[..54]
  }

  lemma Glue(prefix: string, hash: string)
    requires prefix != "" && Undashed(prefix) && NoDoubleDash(prefix)
    requires HexWord(hash, |hash|) && hash != ""
    ensures var s := prefix + "-" + hash;
            && |s| == |prefix| + 1 + |hash| && Undashed(s) && NoDoubleDash(s)
            && (LabelChars(s) <==> LabelChars(prefix))
  {
    var s := prefix + "-" + hash;
    assert forall i | 0 <= i < |prefix| :: s[i] == prefix[i];
  }

  /** What a name has of the text it is made from: the shape always, label characters as far as they are
      kept, and all of a text that fits. */
  ghost predicate NameOf(s: string, r: string) {
    Shaped(r) && (Label(r) <==> LabelChars(Kept(s))) && (1 <= |s| <= 63 ==> r == s)
  }

  /** Trimming a text without double or outer dashes gives 1 to 63 characters without them, and a label
      exactly when what it keeps of the text is made of label characters. */
  lemma TrimNameIsLabel(fnv: string -> string, s: string)
    requires SoundFnv(fnv) && NoDoubleDash(s) && Undashed(s)
    ensures NameOf(s, TrimNameOf(fnv, s))
  {
    TrimNameIsHashed(fnv, s);
    HashedIsLabel(fnv, s);
  }

  lemma TrimNameIsHashed(fnv: string -> string, s: string)
    requires Undashed(s)
    ensures TrimNameOf(fnv, s) == Hashed(fnv, s)
  {
    TrimNothing(s);
  }

  lemma HashedIsLabel(fnv: string -> string, s: string)
    requires SoundFnv(fnv) && NoDoubleDash(s) && Undashed(s)
    ensures NameOf(s, Hashed(fnv, s))
  {
    if |s| > 63 {
      assert HexWord(fnv(s), 8);
      CutIsLabel(s, fnv(s));
    } else if s == "" {
      assert Hashed(fnv, s) == "dpu-object";
    }
  }

  lemma CutIsLabel(s: string, hash: string)
    requires NoDoubleDash(s) && Undashed(s) && |s| > 63 && HexWord(hash, 8)
    ensures Trim(s[..54], Dash) != ""
    ensures var r := Trim(s[..54], Dash) + "-" + hash;
            Shaped(r) && (LabelChars(r) <==> LabelChars(s[..54]))
  {
    var cut := s[..54];
    assert cut == s[0..54] && cut[0] == s[0];
    SliceKeeps(s, 0, 54);
    TrimKeeps(cut);
    HeadSurvives(cut);
    Glue(Trim(cut, Dash), hash);
  }

  /** Names that had to be cut are told apart by the hash of all of the text. */
  lemma CutNamesTell(fnv: string -> string, s: string, t: string)
    requires SoundFnv(fnv) && |s| > 63 && |t| > 63 && Hashed(fnv, s) == Hashed(fnv, t)
    ensures fnv(s) == fnv(t)
  {
    EndsInHash(fnv, s);
    EndsInHash(fnv, t);
  }

  lemma EndsInHash(fnv: string -> string, s: string)
    requires SoundFnv(fnv) && |s| > 63
    ensures var r := Hashed(fnv, s); |r| >= 8 && r[|r| - 8..] == fnv(s)
  {
    assert HexWord(fnv(s), 8);
    var prefix := Trim(s[..54], Dash);
    LastEight(if prefix == "" then "dpu-object" else prefix, fnv(s));
  }

  lemma LastEight(prefix: string, hash: string)
    requires |hash| == 8
    ensures var r := prefix + "-" + hash; |r| >= 8 && r[|r| - 8..] == hash
  {
  }

  lemma {:induction false} HeadSurvives(s: string)
    requires s != "" && s[0] != '-'
    ensures Trim(s, Dash) != ""
  {
    if s[|s| - 1] == '-' {
      HeadSurvives(s[..|s| - 1]);
    }
  }
}
