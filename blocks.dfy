/** Locating the blocks of a BLM file. The reader finds each block with a
    regular expression searched over the whole text (`.` matching newlines):
    `#HEADER#(.*?)#`, `#DEFINITION#(.*?)#` and `#DATA#(.*)#END#`. Here each is
    an explicit substring search, proved to pick the match the regular
    expression engine picks: the leftmost start, then the shortest (lazy `.*?`)
    or the longest (greedy `.*`) group. */
module Blocks {
  import opened Text

  /** `<open>(.*)<close>` matches with `open` at `p` and `close` at `q`; the
      group is `text[p + |open|..q]`. */
  ghost predicate Match(text: string, open: string, close: string, p: int, q: int) {
    OccursAt(text, open, p) && p + |open| <= q && OccursAt(text, close, q)
  }

  /** The span of `<open>(.*?)<close>`: the leftmost match, and of the matches
      starting there the one with the earliest `close`. */
  function LazySpan(text: string, open: string, close: string): (r: Option<(nat, nat)>)
    ensures r.None? ==> forall p, q :: !Match(text, open, close, p, q)
    ensures r.Some? ==> Match(text, open, close, r.value.0, r.value.1)
    ensures r.Some? ==> forall p, q :: Match(text, open, close, p, q) ==>
                          r.value.0 < p || (r.value.0 == p && r.value.1 <= q)
  {
    match FindFrom(text, open, 0)
    case None => None
    case Some(p) =>
      match FindFrom(text, close, p + |open|)
      case None => None
      case Some(q) => Some((p, q))
  }

  /** The span of `<open>(.*)<close>`: the leftmost match, and of the matches
      starting there the one with the last `close`. */
  function GreedySpan(text: string, open: string, close: string): (r: Option<(nat, nat)>)
    ensures r.None? ==> forall p, q :: !Match(text, open, close, p, q)
    ensures r.Some? ==> Match(text, open, close, r.value.0, r.value.1)
    ensures r.Some? ==> forall p, q :: Match(text, open, close, p, q) ==>
                          r.value.0 < p || (r.value.0 == p && q <= r.value.1)
  {
    match FindFrom(text, open, 0)
    case None => None
    case Some(p) =>
      match FindLastFrom(text, close, p + |open|)
      case None => None
      case Some(q) => Some((p, q))
  }

  /** The group of `<open>(.*?)<close>`: the text between the ends of the
      lazy match's `open` and `close`; it never contains `close`. */
  function LazyGroup(text: string, open: string, close: string): (r: Option<string>)
    requires |close| > 0
    ensures r.None? <==> forall p, q :: !Match(text, open, close, p, q)
    ensures r.Some? ==> LazySpan(text, open, close).Some?
                        && var (p, q) := LazySpan(text, open, close).value;
                           r.value == text[p + |open|..q]
    ensures r.Some? ==> forall j :: !OccursAt(r.value, close, j)
  {
    match LazySpan(text, open, close)
    case None => None
    case Some((p, q)) =>
      var group := text[p + |open|..q];
      assert text[..q][p + |open|..] == group;
      assert forall j :: !OccursAt(group, close, j) by {
        forall j | OccursAt(group, close, j) ensures false {
          OccursInSuffix(text[..q], p + |open|, close, j);
          OccursInPrefix(text, q, close, p + |open| + j);
        }
      }
      Some(group)
  }

  /** The group of `<open>(.*)<close>`: it runs up to the last `close`, so
      no `close` follows it in the text. */
  function GreedyGroup(text: string, open: string, close: string): (r: Option<string>)
    ensures r.None? <==> forall p, q :: !Match(text, open, close, p, q)
    ensures r.Some? ==> GreedySpan(text, open, close).Some?
                        && var (p, q) := GreedySpan(text, open, close).value;
                           r.value == text[p + |open|..q]
  {
    match GreedySpan(text, open, close)
    case None => None
    case Some((p, q)) => Some(text[p + |open|..q])
  }

  /** `#HEADER#(.*?)#` */
  function HeaderBlock(text: string): Option<string> {
    LazyGroup(text, "#HEADER#", "#")
  }

  /** `#DEFINITION#(.*?)#` */
  function DefinitionBlock(text: string): Option<string> {
    LazyGroup(text, "#DEFINITION#", "#")
  }

  /** `#DATA#(.*)#END#` */
  function DataBlock(text: string): Option<string> {
    GreedyGroup(text, "#DATA#", "#END#")
  }

  /** The header block is the text between the first `#HEADER#` and the next
      `#`, and contains no `#`; it is missing exactly when no `#HEADER#` is
      followed by a `#`. */
  lemma HeaderBlockSpan(text: string)
    ensures HeaderBlock(text).None? <==> forall p, q :: !Match(text, "#HEADER#", "#", p, q)
    ensures HeaderBlock(text).Some? ==>
              var p := FindFrom(text, "#HEADER#", 0).value;
              var q := FindFrom(text, "#", p + 8).value;
              HeaderBlock(text).value == text[p + 8..q]
              && forall j :: !OccursAt(HeaderBlock(text).value, "#", j)
  {
  }

  /** The definition block is the text between the first `#DEFINITION#` and
      the next `#`, and contains no `#`; it is missing exactly when no
      `#DEFINITION#` is followed by a `#`. */
  lemma DefinitionBlockSpan(text: string)
    ensures DefinitionBlock(text).None? <==> forall p, q :: !Match(text, "#DEFINITION#", "#", p, q)
    ensures DefinitionBlock(text).Some? ==>
              var p := FindFrom(text, "#DEFINITION#", 0).value;
              var q := FindFrom(text, "#", p + 12).value;
              DefinitionBlock(text).value == text[p + 12..q]
              && forall j :: !OccursAt(DefinitionBlock(text).value, "#", j)
  {
  }

  /** The data block runs from the first `#DATA#` to the last `#END#` after
      it: no `#END#` starts after the block's end. */
  lemma DataBlockSpan(text: string)
    ensures DataBlock(text).None? <==> forall p, q :: !Match(text, "#DATA#", "#END#", p, q)
    ensures DataBlock(text).Some? ==>
              var p := FindFrom(text, "#DATA#", 0).value;
              var q := p + 6 + |DataBlock(text).value|;
              DataBlock(text).value == text[p + 6..q]
              && OccursAt(text, "#END#", q)
              && forall j :: q < j ==> !OccursAt(text, "#END#", j)
  {
    var open, close := "#DATA#", "#END#";
    match FindFrom(text, open, 0)
    case None =>
    case Some(p) =>
      match FindLastFrom(text, close, p + |open|)
      case None =>
      case Some(q) =>
        assert GreedySpan(text, open, close) == Some((p, q));
        assert DataBlock(text) == Some(text[p + |open|..q]);
  }
}
