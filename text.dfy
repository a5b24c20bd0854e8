/** The Python `str` operations the BLM reader is built from, on `string`
    (`seq<char>`): substring search, `split`, `join` and `strip`. */
module Text {

  datatype Option<+T> = None | Some(value: T)

  /** The characters `str.strip()` removes in this model: space, tab, line
      feed, carriage return, vertical tab and form feed. Python also strips
      U+001C to U+001F, U+0085 and the Unicode space characters. */
  predicate IsSpace(c: char) {
    c == ' ' || c == '\t' || c == '\n' || c == '\r' || c == '\U{000B}' || c == '\U{000C}'
  }

  predicate AllSpace(s: string) {
    forall i :: 0 <= i < |s| ==> IsSpace(s[i])
  }

  /** `pat` occurs in `s` starting at index `i`. */
  predicate OccursAt(s: string, pat: string, i: int) {
    0 <= i && i + |pat| <= |s| && s[i..i + |pat|] == pat
  }

  /** An occurrence inside a prefix of `s` is an occurrence in `s`. */
  lemma OccursInPrefix(s: string, n: nat, pat: string, i: int)
    requires n <= |s| && OccursAt(s[..n], pat, i)
    ensures OccursAt(s, pat, i)
  {
    assert s[..n][i..i + |pat|] == s[i..i + |pat|];
  }

  /** An occurrence inside a suffix of `s` is an occurrence in `s`, shifted. */
  lemma OccursInSuffix(s: string, n: nat, pat: string, i: int)
    requires n <= |s| && OccursAt(s[n..], pat, i)
    ensures OccursAt(s, pat, n + i)
  {
    assert s[n..][i..i + |pat|] == s[n + i..n + i + |pat|];
  }

  /** The first occurrence of `pat` in `s` at or after `from` (what `str.find`
      and a regular-expression scan find). */
  function FindFrom(s: string, pat: string, from: nat): (r: Option<nat>)
    ensures r.Some? ==> from <= r.value && OccursAt(s, pat, r.value)
    ensures r.Some? ==> forall j :: from <= j < r.value ==> !OccursAt(s, pat, j)
    ensures r.None? ==> forall j :: from <= j ==> !OccursAt(s, pat, j)
    decreases |s| - from
  {
    if from + |pat| > |s| then None
    else if OccursAt(s, pat, from) then Some(from)
    else FindFrom(s, pat, from + 1)
  }

  /** The last occurrence of `pat` in `s` that starts at or after `from`. */
  function FindLastFrom(s: string, pat: string, from: nat): (r: Option<nat>)
    ensures r.Some? ==> from <= r.value && OccursAt(s, pat, r.value)
    ensures r.Some? ==> forall j :: r.value < j ==> !OccursAt(s, pat, j)
    ensures r.None? ==> forall j :: from <= j ==> !OccursAt(s, pat, j)
    decreases |s| + 1 - from
  {
    match FindFrom(s, pat, from)
    case None => None
    case Some(i) =>
      var later := FindLastFrom(s, pat, i + 1);
      if later.None? then Some(i) else later
  }

  /** Python's `s.split(sep)`: the pieces between the non-overlapping
      occurrences of `sep`, found left to right. */
  function Split(s: string, sep: string): (parts: seq<string>)
    requires |sep| > 0
    ensures |parts| >= 1
    decreases |s|
  {
    match FindFrom(s, sep, 0)
    case None => [s]
    case Some(i) => [s[..i]] + Split(s[i + |sep|..], sep)
  }

  /** A split has one piece exactly when the separator does not occur, and no
      piece contains the separator. */
  lemma {:induction false} SplitPieces(s: string, sep: string)
    requires |sep| > 0
    ensures |Split(s, sep)| == 1 <==> forall j :: !OccursAt(s, sep, j)
    ensures forall k, j :: 0 <= k < |Split(s, sep)| ==> !OccursAt(Split(s, sep)[k], sep, j)
    decreases |s|
  {
    var first := FindFrom(s, sep, 0);
    if first.Some? {
      var i := first.value;
      var rest := s[i + |sep|..];
      SplitHead(s, sep, i);
      SplitPieces(rest, sep);
      forall j | OccursAt(s[..i], sep, j) ensures false {
        OccursInPrefix(s, i, sep, j);
      }
    }
  }

  /** An occurrence in `s` at or after `n` is an occurrence in `s[n..]`. */
  lemma OccursInTail(s: string, n: nat, pat: string, i: nat)
    requires n <= |s| && OccursAt(s, pat, n + i)
    ensures OccursAt(s[n..], pat, i)
  {
    assert s[n..][i..i + |pat|] == s[n + i..n + i + |pat|];
  }

  /** The first piece of a split is the text before the FIRST occurrence of
      the separator: no occurrence starts inside it, one starts right after it
      when there are more pieces, and the other pieces are those of the text
      after that occurrence. */
  lemma SplitFirst(s: string, sep: string)
    requires |sep| > 0
    ensures var parts := Split(s, sep);
            && |parts[0]| <= |s| && parts[0] == s[..|parts[0]|]
            && (forall j :: 0 <= j < |parts[0]| ==> !OccursAt(s, sep, j))
            && (|parts| == 1 <==> parts[0] == s)
            && (|parts| > 1 ==>
                  OccursAt(s, sep, |parts[0]|)
                  && Split(s[|parts[0]| + |sep|..], sep) == parts[1..])
  {
    match FindFrom(s, sep, 0)
    case None =>
    case Some(i) =>
      SplitHead(s, sep, i);
  }

  /** No occurrence in the first `m` positions of a suffix is none in the
      matching positions of the whole. */
  lemma NoneInTail(s: string, n: nat, pat: string, m: nat)
    requires n <= |s| && forall j :: 0 <= j < m ==> !OccursAt(s[n..], pat, j)
    ensures forall j :: n <= j < n + m ==> !OccursAt(s, pat, j)
  {
    forall j | n <= j < n + m ensures !OccursAt(s, pat, j) {
      if OccursAt(s, pat, j) {
        OccursInTail(s, n, pat, j - n);
      }
    }
  }

  /** Where the second piece of a split ends: no separator starts inside it,
      and one starts right after it unless it is the last piece. */
  lemma SplitSecond(s: string, sep: string)
    requires |sep| > 0 && |Split(s, sep)| > 1
    ensures var parts := Split(s, sep);
            var v := |parts[0]| + |sep|;
            && v <= |s|
            && (forall j :: v <= j < v + |parts[1]| ==> !OccursAt(s, sep, j))
            && (|parts| > 2 ==> OccursAt(s, sep, v + |parts[1]|))
  {
    SecondPieceInside(s, sep);
    if |Split(s, sep)| > 2 {
      SecondPieceEnd(s, sep);
    }
  }

  lemma SecondPieceInside(s: string, sep: string)
    requires |sep| > 0 && |Split(s, sep)| > 1
    ensures var parts := Split(s, sep);
            var v := |parts[0]| + |sep|;
            v <= |s| && forall j :: v <= j < v + |parts[1]| ==> !OccursAt(s, sep, j)
  {
    var parts := Split(s, sep);
    var v := |parts[0]| + |sep|;
    SplitFirst(s, sep);
    var rest := s[v..];
    var restParts := Split(rest, sep);
    assert restParts == parts[1..];
    assert restParts[0] == parts[1];
    SplitFirst(rest, sep);
    NoneInTail(s, v, sep, |parts[1]|);
  }

  lemma SecondPieceEnd(s: string, sep: string)
    requires |sep| > 0 && |Split(s, sep)| > 2
    ensures var parts := Split(s, sep);
            OccursAt(s, sep, |parts[0]| + |sep| + |parts[1]|)
  {
    var parts := Split(s, sep);
    var v := |parts[0]| + |sep|;
    SplitFirst(s, sep);
    var rest := s[v..];
    var restParts := Split(rest, sep);
    assert restParts == parts[1..];
    SplitFirst(rest, sep);
    assert OccursAt(rest, sep, |parts[1]|);
    OccursInSuffix(s, v, sep, |parts[1]|);
  }

  /** The pieces of a split hold only characters of the text. */
  lemma {:induction false} SplitChars(s: string, sep: string, c: char)
    requires |sep| > 0 && c !in s
    ensures forall k :: 0 <= k < |Split(s, sep)| ==> c !in Split(s, sep)[k]
    decreases |s|
  {
    match FindFrom(s, sep, 0)
    case None =>
    case Some(i) =>
      var rest := s[i + |sep|..];
      assert forall j :: 0 <= j < |rest| ==> rest[j] == s[i + |sep| + j];
      SplitChars(rest, sep, c);
      assert forall j :: 0 <= j < i ==> s[..i][j] == s[j];
      SplitHead(s, sep, i);
  }

  /** Python's `sep.join(parts)`. */
  function Join(parts: seq<string>, sep: string): string
  {
    if |parts| == 0 then ""
    else if |parts| == 1 then parts[0]
    else parts[0] + sep + Join(parts[1..], sep)
  }

  /** Joining the pieces of a split with the separator gives back the text. */
  lemma {:induction false} SplitJoin(s: string, sep: string)
    requires |sep| > 0
    ensures Join(Split(s, sep), sep) == s
    decreases |s|
  {
    var first := FindFrom(s, sep, 0);
    if first.Some? {
      var i := first.value;
      var rest := s[i + |sep|..];
      SplitHead(s, sep, i);
      SplitJoin(rest, sep);
      JoinCons(s[..i], Split(rest, sep), sep);
      assert s == s[..i] + sep + rest;
    }
  }

  lemma JoinCons(head: string, tail: seq<string>, sep: string)
    requires |tail| > 0
    ensures Join([head] + tail, sep) == head + sep + Join(tail, sep)
  {
    assert ([head] + tail)[1..] == tail;
  }

  /** The first piece of a split is the text before the first separator. */
  lemma SplitHead(s: string, sep: string, i: nat)
    requires |sep| > 0 && FindFrom(s, sep, 0) == Some(i)
    ensures Split(s, sep) == [s[..i]] + Split(s[i + |sep|..], sep)
  {
  }

  /** `s.lstrip()`. */
  function TrimStart(s: string): string
  {
    if |s| > 0 && IsSpace(s[0]) then TrimStart(s[1..]) else s
  }

  /** `s.rstrip()`. */
  function TrimEnd(s: string): string
  {
    if |s| > 0 && IsSpace(s[|s| - 1]) then TrimEnd(s[..|s| - 1]) else s
  }

  /** `s.strip()`. */
  function Strip(s: string): string
  {
    TrimEnd(TrimStart(s))
  }

  /** `lstrip` removes exactly the leading white space. */
  lemma {:induction false} TrimStartSpec(s: string)
    ensures var r := TrimStart(s);
            && |r| <= |s| && r == s[|s| - |r|..]
            && AllSpace(s[..|s| - |r|])
            && (|r| > 0 ==> !IsSpace(r[0]))
  {
    if |s| > 0 && IsSpace(s[0]) {
      TrimStartSpec(s[1..]);
      var r := TrimStart(s);
      assert s[1..][..|s| - 1 - |r|] == s[1..|s| - |r|];
    }
  }

  /** `rstrip` removes exactly the trailing white space. */
  lemma {:induction false} TrimEndSpec(s: string)
    ensures var r := TrimEnd(s);
            && |r| <= |s| && r == s[..|r|]
            && AllSpace(s[|r|..])
            && (|r| > 0 ==> !IsSpace(r[|r| - 1]))
  {
    if |s| > 0 && IsSpace(s[|s| - 1]) {
      TrimEndSpec(s[..|s| - 1]);
      var r := TrimEnd(s);
      assert s[..|s| - 1][|r|..] == s[|r|..|s| - 1];
    }
  }

  /** `strip` leaves the infix of `s` between its leading and its trailing
      white space, and that infix neither starts nor ends with white space. */
  lemma StripSpec(s: string)
    ensures var r := Strip(s);
            && (exists a :: 0 <= a <= a + |r| <= |s| && r == s[a..a + |r|]
                            && AllSpace(s[..a]) && AllSpace(s[a + |r|..]))
            && (|r| > 0 ==> !IsSpace(r[0]) && !IsSpace(r[|r| - 1]))
  {
    var t := TrimStart(s);
    var r := TrimEnd(t);
    TrimStartSpec(s);
    TrimEndSpec(t);
    var a := |s| - |t|;
    assert s[a..a + |r|] == r;
    assert s[a + |r|..] == t[|r|..];
  }

  /** `s.strip()` is empty exactly when `s` is all white space. */
  lemma StripEmpty(s: string)
    ensures Strip(s) == "" <==> AllSpace(s)
  {
    var t := TrimStart(s);
    TrimStartSpec(s);
    TrimEndSpec(t);
    assert s == s[..|s| - |t|] + t;
  }

  /** `s.strip()` holds only characters of `s`. */
  lemma StripChars(s: string, c: char)
    requires c !in s
    ensures c !in Strip(s)
  {
    StripSpec(s);
    var r := Strip(s);
    var a :| 0 <= a <= a + |r| <= |s| && r == s[a..a + |r|]
             && AllSpace(s[..a]) && AllSpace(s[a + |r|..]);
    assert forall j :: 0 <= j < |r| ==> r[j] == s[a + j];
  }

  /** `list(map(str.strip, parts))`. */
  function StripAll(parts: seq<string>): (r: seq<string>)
  {
    seq(|parts|, k requires 0 <= k < |parts| => Strip(parts[k]))
  }
}
