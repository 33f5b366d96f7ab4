/**
 * The stream cursor (stilts-lang/src/located.rs): a window `{start, end,
 * full_input}` over one source text. Reading the cursor is pure; the stream
 * operations `next_token`, `next_slice` and `reset` move it in place.
 */
module LocatedStream {
  import opened Wrappers

  /** The backing text. Two cursors share a source when they hold the same object. */
  class Source {
    const text: string

    constructor (text: string)
      ensures this.text == text
    {
      this.text := text;
    }
  }

  /** The cursor as a `Copy` value (what `checkpoint` hands out). */
  datatype Located = Located(start: nat, end: nat, source: Source) {
    predicate Valid() { start <= end <= |source.text| }
  }

  /** `Located::new`: the whole text. */
  function New(src: Source): (l: Located)
    ensures l.Valid() && l.start == 0 && l.end == |src.text| && l.source == src
    ensures Content(l) == src.text
  {
    Located(0, |src.text|, src)
  }

  /** `content`: the text inside the window. */
  function Content(l: Located): (s: string)
    requires l.Valid()
    ensures |s| == l.end - l.start
    ensures l.source.text[..l.start] + s + l.source.text[l.end..] == l.source.text
  {
    assert l.source.text[..l.start] + l.source.text[l.start..l.end] + l.source.text[l.end..] == l.source.text;
    l.source.text[l.start..l.end]
  }

  /** `here`: the empty window at the cursor's start, over the same source. */
  function Here(l: Located): (h: Located)
    requires l.Valid()
    ensures h.Valid() && h.start == l.start && h.source == l.source && Content(h) == ""
  {
    l.(end := l.start)
  }

  /** `span`: the half-open range of the window. */
  function SpanOf(l: Located): (r: (nat, nat))
    requires l.Valid()
    ensures r.0 <= r.1 && r.1 - r.0 == |Content(l)|
  {
    (l.start, l.end)
  }

  /** `eof_offset`: how much is left. */
  function EofOffset(l: Located): (n: nat)
    requires l.Valid()
    ensures n == |Content(l)|
  {
    l.end - l.start
  }

  /**
   * `offset_from`: how far `l` has moved past `origin`. The `usize`
   * subtraction panics when `l` starts before `origin`.
   */
  function OffsetFrom(l: Located, origin: Located): (n: nat)
    requires origin.start <= l.start
    ensures Location(origin) + n == Location(l)
  {
    l.start - origin.start
  }

  /** A cursor that moved forward has consumed `offset_from` characters of where it started. */
  lemma OffsetFromConsumed(l: Located, origin: Located)
    requires l.Valid() && origin.Valid() && l.source == origin.source && l.end == origin.end
    requires origin.start <= l.start
    ensures OffsetFrom(l, origin) <= |Content(origin)|
    ensures Content(origin) == Content(origin)[..OffsetFrom(l, origin)] + Content(l)
  {
    var t := l.source.text;
    assert Content(origin)[..OffsetFrom(l, origin)] == t[origin.start..l.start];
    assert t[origin.start..l.end] == t[origin.start..l.start] + t[l.start..l.end];
  }

  /** `location`: where the window starts in the whole text. */
  function Location(l: Located): nat { l.start }

  /**
   * `PartialEq`: the same source object (reference identity) and the same
   * content, wherever the two windows sit.
   */
  predicate Equal(a: Located, b: Located)
    requires a.Valid() && b.Valid()
  {
    a.source == b.source && Content(a) == Content(b)
  }

  /** The equality is reflexive, symmetric and transitive, and ignores position. */
  lemma EqualIsEquivalence(a: Located, b: Located, c: Located)
    requires a.Valid() && b.Valid() && c.Valid()
    ensures Equal(a, a)
    ensures Equal(a, b) ==> Equal(b, a)
    ensures Equal(a, b) && Equal(b, c) ==> Equal(a, c)
  {
  }

  /** Equal content in two different texts is never equal. */
  lemma EqualNeedsSameSource(a: Located, b: Located)
    requires a.Valid() && b.Valid() && a.source != b.source
    ensures !Equal(a, b)
  {
  }

  /** Two windows of one text at different places can still be equal. */
  lemma EqualIgnoresPosition(src: Source)
    requires src.text == "abab"
    ensures Equal(Located(0, 2, src), Located(2, 4, src))
  {
    assert Content(Located(0, 2, src)) == "ab" == Content(Located(2, 4, src));
  }

  /** The cursor the stream operations move in place. */
  class Cursor {
    var start: nat
    var end: nat
    var source: Source

    ghost predicate Valid()
      reads this
    {
      start <= end <= |source.text|
    }

    /** The cursor's current value. */
    function Value(): (l: Located)
      reads this
      ensures l.start == start && l.end == end && l.source == source
    {
      Located(start, end, source)
    }

    /** `Located::new` as a cursor. */
    constructor (src: Source)
      ensures Valid() && Value() == New(src)
    {
      start, end, source := 0, |src.text|, src;
    }

    /**
     * `next_token`: the first character of the content, moving past it;
     * `None` without moving when the window is empty.
     */
    method NextToken() returns (c: Option<char>)
      requires Valid()
      modifies this
      ensures Valid() && end == old(end) && source == old(source)
      ensures old(start) == old(end) ==> c == None && start == old(start)
      ensures old(start) < old(end) ==> c == Some(old(Content(Value()))[0]) && start == old(start) + 1
      ensures OffsetFrom(Value(), old(Value())) == if c.None? then 0 else 1
      ensures Content(Value()) == if c.None? then old(Content(Value())) else old(Content(Value()))[1..]
    {
      if start == end {
        return None;
      }
      c := Some(source.text[start]);
      start := start + 1;
    }

    /**
     * `next_slice`: the next `n` characters as a window, moving past them.
     * The stream contract limits `n` to what is left.
     */
    method NextSlice(n: nat) returns (slice: Located)
      requires Valid() && n <= end - start
      modifies this
      ensures Valid() && end == old(end) && source == old(source) && start == old(start) + n
      ensures slice.Valid() && slice == Located(old(start), old(start) + n, old(source))
      ensures slice.end == start && OffsetFrom(Value(), old(Value())) == n
      ensures Content(slice) + Content(Value()) == old(Content(Value()))
    {
      slice := Located(start, start + n, source);
      start := start + n;
      assert source.text[slice.start..end] == source.text[slice.start..start] + source.text[start..end];
    }

    /** `checkpoint`: a copy of the cursor. */
    function Checkpoint(): (cp: Located)
      reads this
      ensures cp == Value()
    {
      Located(start, end, source)
    }

    /** `reset`: become the checkpoint again. */
    method Reset(cp: Located)
      modifies this
      ensures Value() == cp
    {
      start, end, source := cp.start, cp.end, cp.source;
    }
  }

  /** Moving and then resetting to a checkpoint taken before restores the cursor. */
  method ResetRestores(c: Cursor)
    requires c.Valid()
    modifies c
    ensures c.Value() == old(c.Value())
  {
    var cp := c.Checkpoint();
    var _ := c.NextToken();
    var _ := c.NextSlice(0);
    c.Reset(cp);
  }
}
