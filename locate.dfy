/**
 * The parser's source window (stilts-lang/src/locate.rs): a copyable value
 * `{offset, end_offset, inner}` naming the part `[offset, end_offset)` of the
 * whole text `inner`. Positions are character indices; the byte view that
 * diagnostics need is computed from UTF-8 widths.
 */
module Locate {
  import opened Wrappers
  import opened Unicode

  datatype Located = Located(offset: nat, endOffset: nat, inner: string) {
    /** The window lies inside the text and is not inverted. */
    predicate Valid() { offset <= endOffset <= |inner| }
  }

  /** Every window the parser builds satisfies `Valid`. */
  type Window = l: Located | l.Valid() witness Located(0, 0, "")

  /** The bounds of a Rust `RangeBounds<usize>` argument. */
  datatype Bound = Unbounded | Included(n: nat) | Excluded(n: nat)
  datatype Range = Range(lo: Bound, hi: Bound)

  /** `a..b`, `a..`, `..b` and `a..=b`. */
  function Between(a: nat, b: nat): Range { Range(Included(a), Excluded(b)) }
  function From(a: nat): Range { Range(Included(a), Unbounded) }
  function UpTo(b: nat): Range { Range(Unbounded, Excluded(b)) }
  function BetweenInclusive(a: nat, b: nat): Range { Range(Included(a), Included(b)) }

  /** `Located::new`: the whole of `s`. */
  function New(s: string): (w: Window)
    ensures w.offset == 0 && w.endOffset == |s| && w.inner == s
    ensures Spanned(w) == s
  {
    Located(0, |s|, s)
  }

  /** `spanned` (and `Deref`/`AsRef<str>`): the text inside the window. */
  function Spanned(w: Window): string
  {
    w.inner[w.offset..w.endOffset]
  }

  /** The text before the window, the window's text and the text after it make up the whole text. */
  lemma SpannedPartitions(w: Window)
    ensures |Spanned(w)| == Len(w)
    ensures w.inner[..w.offset] + Spanned(w) + w.inner[w.endOffset..] == w.inner
  {
    assert w.inner[..w.offset] + w.inner[w.offset..w.endOffset] + w.inner[w.endOffset..] == w.inner;
  }

  /** `str::len` through `Deref`, counted in characters. */
  function Len(w: Window): nat { w.endOffset - w.offset }

  /** `full`: the whole text, whatever the window. */
  function Full(w: Window): string { w.inner }

  /** The relative start a range names, as `try_slice` computes it. */
  function StartOf(r: Range): nat
  {
    match r.lo
    case Unbounded => 0
    case Included(n) => n
    case Excluded(n) => n + 1
  }

  /** The relative end a range names, as `try_slice` computes it. */
  function EndOf(r: Range, w: Window): nat
  {
    match r.hi
    case Unbounded => Len(w)
    case Included(n) => n + 1
    case Excluded(n) => n
  }

  /**
   * `try_slice` exactly as written: it checks each end against `end_offset`
   * but never checks that the start does not pass the end.
   */
  function TrySliceAsWritten(w: Window, r: Range): (o: Option<Located>)
    ensures o.None? <==> w.offset + StartOf(r) > w.endOffset || w.offset + EndOf(r, w) > w.endOffset
    ensures o.Some? ==> o.value.inner == w.inner && w.offset <= o.value.offset <= w.endOffset
    ensures o.Some? ==> o.value.endOffset <= w.endOffset
  {
    var start := StartOf(r);
    var end := EndOf(r, w);
    if w.offset + start > w.endOffset || w.offset + end > w.endOffset then None
    else Some(Located(w.offset + start, w.offset + end, w.inner))
  }

  /** `s.try_slice(3..1)` succeeds and yields a window whose start passes its end. */
  lemma TrySliceAsWrittenInverted()
    ensures var o := TrySliceAsWritten(New("abcd"), Between(3, 1));
      o == Some(Located(3, 1, "abcd")) && !o.value.Valid()
  {
  }

  /**
   * `try_slice` with the check its documentation implies: `None` whenever
   * the range cannot be sliced, including an inverted range.
   */
  function TrySlice(w: Window, r: Range): (o: Option<Window>)
    ensures o.None? <==> StartOf(r) > EndOf(r, w) || w.offset + EndOf(r, w) > w.endOffset
    ensures o.Some? ==> o.value.inner == w.inner
    ensures o.Some? ==> o.value.offset == w.offset + StartOf(r) && o.value.endOffset == w.offset + EndOf(r, w)
    ensures o.Some? ==> Spanned(o.value) == Spanned(w)[StartOf(r)..EndOf(r, w)]
  {
    var start := StartOf(r);
    var end := EndOf(r, w);
    if start > end || w.offset + end > w.endOffset then None
    else
      SliceOfSlice(w.inner, w.offset, w.endOffset, start, end);
      Some(Located(w.offset + start, w.offset + end, w.inner))
  }

  /** A slice of a slice is a slice of the whole. */
  lemma SliceOfSlice(s: string, a: nat, b: nat, i: nat, j: nat)
    requires a <= b <= |s| && i <= j <= b - a
    ensures s[a..b][i..j] == s[a + i..a + j]
  {
    assert forall k :: 0 <= k < j - i ==> s[a..b][i..j][k] == s[a + i + k];
  }

  /** On a range that is not inverted both versions agree. */
  lemma TrySliceAgrees(w: Window, r: Range)
    requires StartOf(r) <= EndOf(r, w)
    ensures TrySliceAsWritten(w, r) == TrySlice(w, r)
  {
  }

  /** `slice`: `try_slice(..).unwrap()`, so the slice must exist. */
  function Slice(w: Window, r: Range): (s: Window)
    requires TrySlice(w, r).Some?
    ensures s.inner == w.inner && w.offset <= s.offset <= s.endOffset <= w.endOffset
    ensures Spanned(s) == Spanned(w)[StartOf(r)..EndOf(r, w)]
  {
    TrySlice(w, r).value
  }

  /** `slice(k..)` and `slice(..k)` split the window into adjacent halves. */
  lemma SplitPartitions(w: Window, k: nat)
    requires k <= Len(w)
    ensures TrySlice(w, UpTo(k)).Some? && TrySlice(w, From(k)).Some?
    ensures Slice(w, UpTo(k)).endOffset == Slice(w, From(k)).offset
    ensures Spanned(Slice(w, UpTo(k))) + Spanned(Slice(w, From(k))) == Spanned(w)
    ensures Slice(w, From(k)).endOffset == w.endOffset && Slice(w, UpTo(k)).offset == w.offset
  {
    assert Spanned(w)[..k] + Spanned(w)[k..] == Spanned(w);
  }

  /** Slicing a slice is one slice with the offsets added up. */
  lemma SliceCompose(w: Window, a: nat, b: nat, c: nat, d: nat)
    requires a <= b && w.offset + b <= w.endOffset && c <= d <= b - a
    ensures TrySlice(w, Between(a, b)).Some?
    ensures TrySlice(Slice(w, Between(a, b)), Between(c, d)).Some?
    ensures Slice(Slice(w, Between(a, b)), Between(c, d)) == Slice(w, Between(a + c, a + d))
  {
  }

  /** The slices of the repository's `located_slice` test. */
  lemma LocatedSliceExample()
    ensures var s := New("this text is good");
      && Spanned(Slice(s, Between(0, 4))) == "this"
      && var part := Slice(s, Between(5, 9));
      && Spanned(part) == "text" && part.offset == 5 && Len(part) == 4
      && TrySlice(part, BetweenInclusive(1, 2)).Some?
      && var sub := Slice(part, BetweenInclusive(1, 2));
      && Spanned(sub) == "ex" && sub.offset == 6 && Len(sub) == 2
      && Spanned(Slice(s, From(1))) == "his text is good" && Len(Slice(s, From(1))) == Len(s) - 1
      && Spanned(Slice(s, UpTo(2))) == "th"
  {
  }

  /**
   * `join`: from the start of `a` to the end of `b`, over `a`'s text. The
   * source panics when the two texts differ; that is `None` here.
   */
  function Join(a: Window, b: Window): (o: Option<Located>)
    ensures o.None? <==> a.inner != b.inner
    ensures o.Some? ==> o.value.offset == a.offset && o.value.endOffset == b.endOffset && o.value.inner == a.inner
  {
    if a.inner != b.inner then None else Some(Located(a.offset, b.endOffset, a.inner))
  }

  /** Joining two adjacent windows covers exactly their two texts. */
  lemma JoinAdjacent(a: Window, b: Window)
    requires a.inner == b.inner && a.endOffset == b.offset
    ensures Join(a, b).Some? && Join(a, b).value.Valid()
    ensures Spanned(Join(a, b).value) == Spanned(a) + Spanned(b)
  {
    var j: Window := Join(a, b).value;
    assert a.inner[a.offset..b.endOffset] == a.inner[a.offset..a.endOffset] + a.inner[b.offset..b.endOffset];
  }

  /** `byte_offset`: the UTF-8 size of the text before the window. */
  function ByteOffset(w: Window): (n: nat)
    ensures w.offset <= n <= 4 * w.offset
  {
    Utf8LenBounds(w.inner[..w.offset]);
    Utf8Len(w.inner[..w.offset])
  }

  /** `byte_len`: the UTF-8 size of the text inside the window. */
  function ByteLen(w: Window): (n: nat)
    ensures Len(w) <= n <= 4 * Len(w)
  {
    Utf8LenBounds(w.inner[w.offset..w.endOffset]);
    Utf8Len(w.inner[w.offset..w.endOffset])
  }

  /** A byte range as the diagnostic library stores it. */
  datatype SourceSpan = SourceSpan(offset: nat, length: nat)

  /** `span`: the window in bytes. */
  function Span(w: Window): (s: SourceSpan)
    ensures s.offset == ByteOffset(w) && s.length == ByteLen(w)
  {
    SourceSpan(ByteOffset(w), ByteLen(w))
  }

  /** The byte view is consistent: offset plus length is the byte offset of the end. */
  lemma ByteOffsetPlusLen(w: Window)
    ensures ByteOffset(w) + ByteLen(w) == Utf8Len(w.inner[..w.endOffset])
    ensures Len(w) <= ByteLen(w) <= 4 * Len(w)
  {
    assert w.inner[..w.endOffset] == w.inner[..w.offset] + w.inner[w.offset..w.endOffset];
    Utf8LenAppend(w.inner[..w.offset], w.inner[w.offset..w.endOffset]);
    Utf8LenBounds(w.inner[w.offset..w.endOffset]);
  }

  /** On ASCII text the byte offset and length equal the character ones. */
  lemma ByteViewOnAscii(w: Window)
    requires AllAscii(w.inner)
    ensures ByteOffset(w) == w.offset && ByteLen(w) == Len(w)
  {
    Utf8LenAscii(w.inner[..w.offset]);
    Utf8LenAscii(w.inner[w.offset..w.endOffset]);
  }
}
