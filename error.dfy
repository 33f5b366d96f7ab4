/**
 * Diagnostics and the three-way failure flow (stilts-lang/src/error.rs).
 */
module Errors {
  import Wrappers
  import opened Unicode
  import Locate

  /** `ErrFlow`: how a failure travels through the combinators. */
  datatype ErrFlow<E> = Backtrack(e: E) | Unrecoverable(e: E) | Incomplete(e: E)

  /** Which of the three classes a flow is in. */
  datatype FlowClass = BacktrackClass | UnrecoverableClass | IncompleteClass

  function ClassOf<E>(f: ErrFlow<E>): FlowClass
  {
    match f
    case Backtrack(_) => BacktrackClass
    case Unrecoverable(_) => UnrecoverableClass
    case Incomplete(_) => IncompleteClass
  }

  /** Rebuild a flow of the given class around an error. */
  function WithClass<E>(c: FlowClass, e: E): (f: ErrFlow<E>)
    ensures ClassOf(f) == c && IntoErr(f) == e
  {
    match c
    case BacktrackClass => Backtrack(e)
    case UnrecoverableClass => Unrecoverable(e)
    case IncompleteClass => Incomplete(e)
  }

  /** `into_err`: the error inside, whatever the class. */
  function IntoErr<E>(f: ErrFlow<E>): E
  {
    match f
    case Backtrack(e) => e
    case Unrecoverable(e) => e
    case Incomplete(e) => e
  }

  /** A flow is its class and its error, nothing more. */
  lemma FlowDeterminedByClassAndError<E>(f: ErrFlow<E>)
    ensures WithClass(ClassOf(f), IntoErr(f)) == f
  {
  }

  /** `to_backtrack`: same error, now recoverable. */
  function ToBacktrack<E>(f: ErrFlow<E>): (r: ErrFlow<E>)
    ensures r.Backtrack? && IntoErr(r) == IntoErr(f)
  {
    Backtrack(IntoErr(f))
  }

  /** `to_unrecoverable`: same error, now a cut. */
  function ToUnrecoverable<E>(f: ErrFlow<E>): (r: ErrFlow<E>)
    ensures r.Unrecoverable? && IntoErr(r) == IntoErr(f)
  {
    Unrecoverable(IntoErr(f))
  }

  /** `map`: change the error, keep the class. */
  function Map<E>(f: ErrFlow<E>, g: E -> E): (r: ErrFlow<E>)
    ensures ClassOf(r) == ClassOf(f) && IntoErr(r) == g(IntoErr(f))
  {
    match f
    case Backtrack(e) => Backtrack(g(e))
    case Unrecoverable(e) => Unrecoverable(g(e))
    case Incomplete(e) => Incomplete(g(e))
  }

  /** `map_incomplete`: change the error of an `Incomplete` flow only. */
  function MapIncomplete<E>(f: ErrFlow<E>, g: E -> E): (r: ErrFlow<E>)
    ensures ClassOf(r) == ClassOf(f)
    ensures f.Incomplete? ==> IntoErr(r) == g(IntoErr(f))
    ensures !f.Incomplete? ==> r == f
  {
    match f
    case Incomplete(e) => Incomplete(g(e))
    case _ => f
  }

  /** The diagnostic: message, label, byte span, and the text it points into. */
  datatype Error = Error(msg: string, labelText: string, span: Wrappers.Option<Locate.SourceSpan>, sourceCode: string)

  /** `Error::new`: labelled "here", no span, no source text. */
  function NewError(msg: string): (e: Error)
    ensures e.msg == msg && e.labelText == "here" && e.span.None? && e.sourceCode == ""
  {
    Error(msg, "here", Wrappers.None, "")
  }

  /** `Error::msg`: replace the message only. */
  function WithMsg(e: Error, msg: string): (r: Error)
    ensures r.msg == msg && r.labelText == e.labelText && r.span == e.span && r.sourceCode == e.sourceCode
  {
    e.(msg := msg)
  }

  /** `Error::label`: replace the label only. */
  function WithLabel(e: Error, labelText: string): (r: Error)
    ensures r.labelText == labelText && r.msg == e.msg && r.span == e.span && r.sourceCode == e.sourceCode
  {
    e.(labelText := labelText)
  }

  /** `Error::span`: point at a window, and keep the whole text it lies in. */
  function WithSpan(e: Error, w: Locate.Window): (r: Error)
    ensures r.msg == e.msg && r.labelText == e.labelText && r.sourceCode == w.inner
    ensures r.span == Wrappers.Some(Locate.SourceSpan(Locate.ByteOffset(w), Locate.ByteLen(w)))
  {
    e.(span := Wrappers.Some(Locate.Span(w)), sourceCode := Locate.Full(w))
  }

  /** `ErrFlow::msg`, `label` and `span`: the builders applied under the flow. */
  function FlowMsg(f: ErrFlow<Error>, msg: string): (r: ErrFlow<Error>)
    ensures ClassOf(r) == ClassOf(f) && IntoErr(r) == WithMsg(IntoErr(f), msg)
  {
    Map(f, e => WithMsg(e, msg))
  }

  function FlowLabel(f: ErrFlow<Error>, labelText: string): (r: ErrFlow<Error>)
    ensures ClassOf(r) == ClassOf(f) && IntoErr(r) == WithLabel(IntoErr(f), labelText)
  {
    Map(f, e => WithLabel(e, labelText))
  }

  function FlowSpan(f: ErrFlow<Error>, w: Locate.Window): (r: ErrFlow<Error>)
    ensures ClassOf(r) == ClassOf(f) && IntoErr(r) == WithSpan(IntoErr(f), w)
  {
    Map(f, e => WithSpan(e, w))
  }

  /** `LResult`: the remainder and a value, or a failure flow. */
  datatype LResult<T> = Ok(rest: Locate.Window, value: T) | Err(flow: ErrFlow<Error>)

  /** `map_err_incomplete`: rewrite an `Incomplete` failure, leave everything else alone. */
  function MapErrIncomplete<T>(r: LResult<T>, g: Error -> Error): (r': LResult<T>)
    ensures r.Ok? ==> r' == r
    ensures r.Err? ==> r'.Err? && r'.flow == MapIncomplete(r.flow, g)
  {
    match r
    case Err(f) => Err(MapIncomplete(f, g))
    case _ => r
  }

  /** `with_msg`, `with_label`, `with_span`: the flow builders on a result. */
  function ResultWithMsg<T>(r: LResult<T>, msg: string): (r': LResult<T>)
    ensures r.Ok? ==> r' == r
    ensures r.Err? ==> r'.Err? && r'.flow == FlowMsg(r.flow, msg)
  {
    match r
    case Err(f) => Err(FlowMsg(f, msg))
    case _ => r
  }

  function ResultWithLabel<T>(r: LResult<T>, labelText: string): (r': LResult<T>)
    ensures r.Ok? ==> r' == r
    ensures r.Err? ==> r'.Err? && r'.flow == FlowLabel(r.flow, labelText)
  {
    match r
    case Err(f) => Err(FlowLabel(f, labelText))
    case _ => r
  }

  function ResultWithSpan<T>(r: LResult<T>, w: Locate.Window): (r': LResult<T>)
    ensures r.Ok? ==> r' == r
    ensures r.Err? ==> r'.Err? && r'.flow == FlowSpan(r.flow, w)
  {
    match r
    case Err(f) => Err(FlowSpan(f, w))
    case _ => r
  }

  // ---------------------------------------------------------------------
  // Line and column arithmetic for diagnostics

  function CountNewlines(s: string): (n: nat)
    ensures n <= |s|
  {
    if s == [] then 0 else CountNewlines(s[..|s| - 1]) + (if s[|s| - 1] == '\n' then 1 else 0)
  }

  /** The number of characters after the last newline of `s`. */
  function Column(s: string): (n: nat)
    ensures n <= |s|
  {
    if s == [] then 0 else if s[|s| - 1] == '\n' then 0 else Column(s[..|s| - 1]) + 1
  }

  /**
   * How many characters a scan that stops once it has passed `offset`
   * bytes reads: the fewest whose UTF-8 size reaches `offset`, or all.
   */
  function CharsBefore(s: string, offset: nat): (k: nat)
    ensures k <= |s|
    ensures k < |s| ==> Utf8Len(s[..k]) >= offset
    ensures forall j :: 0 <= j < k ==> Utf8Len(s[..j]) < offset
  {
    CharsBeforeFrom(s, offset, 0)
  }

  function CharsBeforeFrom(s: string, offset: nat, j: nat): (k: nat)
    requires j <= |s|
    requires forall i :: 0 <= i < j ==> Utf8Len(s[..i]) < offset
    ensures j <= k <= |s|
    ensures k < |s| ==> Utf8Len(s[..k]) >= offset
    ensures forall i :: 0 <= i < k ==> Utf8Len(s[..i]) < offset
    decreases |s| - j
  {
    if j == |s| || Utf8Len(s[..j]) >= offset then j else CharsBeforeFrom(s, offset, j + 1)
  }

  /** The line and column `get_line_col` reports for a byte offset. */
  function LineColAt(s: string, offset: nat): (r: (nat, nat))
    ensures r.0 >= 1
  {
    var k := CharsBefore(s, offset);
    (CountNewlines(s[..k]) + 1, Column(s[..k]))
  }

  lemma PrefixStep(s: string, k: nat)
    requires k < |s|
    ensures s[..k + 1][..k] == s[..k] && s[..k + 1][k] == s[k]
  {
  }

  /**
   * `get_line_col`: scan characters while fewer than `offset` bytes are
   * behind, counting lines from 1 and columns from the last newline.
   */
  method GetLineCol(source: string, offset: nat) returns (line: nat, col: nat)
    ensures (line, col) == LineColAt(source, offset)
  {
    var l, c, cursor := 0, 0, 0;
    var i := 0;
    while i < |source|
      invariant i <= |source|
      invariant cursor == Utf8Len(source[..i])
      invariant l == CountNewlines(source[..i]) && c == Column(source[..i])
      invariant forall j :: 0 <= j < i ==> Utf8Len(source[..j]) < offset
    {
      if cursor >= offset {
        break;
      }
      var ch := source[i];
      if ch == '\n' {
        c := 0;
        l := l + 1;
      } else {
        c := c + 1;
      }
      assert source[..i + 1] == source[..i] + [ch];
      Utf8LenAppend(source[..i], [ch]);
      cursor := cursor + Utf8Width(ch);
      i := i + 1;
    }
    CharsBeforeIs(source, offset, i);
    line := l + 1;
    col := c;
  }

  /** The first boundary that satisfies the scan's stopping rule is the one it stops at. */
  lemma CharsBeforeIs(s: string, offset: nat, k: nat)
    requires k <= |s|
    requires k < |s| ==> Utf8Len(s[..k]) >= offset
    requires forall j :: 0 <= j < k ==> Utf8Len(s[..j]) < offset
    ensures CharsBefore(s, offset) == k
  {
  }

  /** Whether `get_offset` stops before reading the character at boundary `k`. */
  predicate Reached(s: string, k: nat, locLine: nat, locCol: nat)
    requires k <= |s|
  {
    CountNewlines(s[..k]) + 1 >= locLine && Column(s[..k]) + 1 >= locCol
  }

  /** The boundary `get_offset` stops at: the first that reaches the location, or the end. */
  function StopAt(s: string, locLine: nat, locCol: nat, j: nat): (k: nat)
    requires j <= |s|
    ensures j <= k <= |s|
    ensures k < |s| ==> Reached(s, k, locLine, locCol)
    ensures forall i :: j <= i < k ==> !Reached(s, i, locLine, locCol)
    decreases |s| - j
  {
    if j == |s| || Reached(s, j, locLine, locCol) then j else StopAt(s, locLine, locCol, j + 1)
  }

  /** The first boundary from `j` on that reaches the location is the one the scan stops at. */
  lemma StopAtIs(s: string, locLine: nat, locCol: nat, j: nat, k: nat)
    requires j <= k <= |s|
    requires k < |s| ==> Reached(s, k, locLine, locCol)
    requires forall i :: j <= i < k ==> !Reached(s, i, locLine, locCol)
    ensures StopAt(s, locLine, locCol, j) == k
  {
  }

  /** The byte offset `get_offset` returns for a 1-based line and column. */
  function OffsetOf(s: string, locLine: nat, locCol: nat): nat
  {
    Utf8Len(s[..StopAt(s, locLine, locCol, 0)])
  }

  /**
   * `get_offset`: scan characters until the line reaches `loc_line` and the
   * column reaches `loc_col`, summing their UTF-8 sizes.
   */
  method GetOffset(source: string, locLine: nat, locCol: nat) returns (offset: nat)
    ensures offset == OffsetOf(source, locLine, locCol)
  {
    var line, col := 0, 0;
    offset := 0;
    var i := 0;
    while i < |source|
      invariant i <= |source|
      invariant offset == Utf8Len(source[..i])
      invariant line == CountNewlines(source[..i]) && col == Column(source[..i])
      invariant StopAt(source, locLine, locCol, 0) == StopAt(source, locLine, locCol, i)
    {
      if line + 1 >= locLine && col + 1 >= locCol {
        break;
      }
      var ch := source[i];
      if ch == '\n' {
        col := 0;
        line := line + 1;
      } else {
        col := col + 1;
      }
      assert source[..i + 1] == source[..i] + [ch];
      Utf8LenAppend(source[..i], [ch]);
      offset := offset + Utf8Width(ch);
      i := i + 1;
    }
  }

  /** Lines never decrease and, on one line, the column grows by one per character. */
  lemma LinesMonotone(s: string, j: nat, k: nat)
    requires j <= k <= |s|
    ensures CountNewlines(s[..j]) <= CountNewlines(s[..k])
    ensures CountNewlines(s[..j]) == CountNewlines(s[..k]) ==> Column(s[..k]) == Column(s[..j]) + (k - j)
    decreases k - j
  {
    if j < k {
      LinesMonotone(s, j, k - 1);
      assert s[..k][..k - 1] == s[..k - 1];
    }
  }

  /**
   * `get_offset` inverts `get_line_col` on character boundaries: the line
   * and the column, made 1-based as its caller does, of a boundary's byte
   * offset lead back to that offset.
   */
  lemma {:induction false} OffsetOfLineCol(s: string, k: nat)
    requires k <= |s|
    ensures var (line, col) := LineColAt(s, Utf8Len(s[..k]));
      OffsetOf(s, line, col + 1) == Utf8Len(s[..k])
  {
    var off := Utf8Len(s[..k]);
    forall j | 0 <= j < k ensures Utf8Len(s[..j]) < off {
      Utf8LenPrefixStrict(s, j, k);
    }
    CharsBeforeIs(s, off, k);
    var line := CountNewlines(s[..k]) + 1;
    var col := Column(s[..k]) + 1;
    forall i | 0 <= i < k ensures !Reached(s, i, line, col) {
      LinesMonotone(s, i, k);
    }
    StopAtIs(s, line, col, 0, k);
  }

  /** On ASCII text `get_line_col` reads exactly `offset` characters. */
  lemma LineColOnAscii(s: string, offset: nat)
    requires AllAscii(s) && offset <= |s|
    ensures LineColAt(s, offset) == (CountNewlines(s[..offset]) + 1, Column(s[..offset]))
  {
    forall j | 0 <= j <= |s| ensures Utf8Len(s[..j]) == j {
      Utf8LenAscii(s[..j]);
    }
    CharsBeforeIs(s, offset, offset);
  }

  /** The column counts characters since the last newline. */
  lemma {:induction false} ColumnAfterNewline(a: string, b: string)
    requires forall i :: 0 <= i < |b| ==> b[i] != '\n'
    ensures Column(a + ['\n'] + b) == |b|
    ensures CountNewlines(a + ['\n'] + b) == CountNewlines(a) + 1
  {
    if b == [] {
      assert (a + ['\n'] + b)[..|a|] == a;
    } else {
      var b' := b[..|b| - 1];
      assert (a + ['\n'] + b)[..|a| + 1 + |b'|] == a + ['\n'] + b';
      ColumnAfterNewline(a, b');
    }
  }

  // ---------------------------------------------------------------------
  // display_simple

  /**
   * `str::lines`: split at `\n`, drop the `\r` of a `\r\n` ending, no empty
   * last line; a last line without `\n` keeps a trailing `\r`.
   */
  function Lines(s: string): (ls: seq<string>)
    ensures forall i :: 0 <= i < |ls| ==> '\n' !in ls[i]
    ensures s == [] <==> ls == []
    decreases |s|
  {
    if s == [] then []
    else
      var k := FirstNewline(s, 0);
      var line := s[..k];
      if k == |s| then [line]
      else
        var line := if |line| > 0 && line[|line| - 1] == '\r' then line[..|line| - 1] else line;
        [line] + Lines(s[k + 1..])
  }

  /** A `\r\n` ending is removed whole; a bare `\r` at the very end stays. */
  lemma LinesCarriageReturn()
    ensures Lines("a\r\nb\r") == ["a", "b\r"]
  {
    var s := "a\r\nb\r";
    assert FirstNewline(s, 0) == 2;
    assert s[..2] == "a\r" && s[3..] == "b\r";
    assert FirstNewline("b\r", 0) == 2;
    assert "b\r"[..2] == "b\r";
    assert Lines("b\r") == ["b\r"];
    assert "a\r"[..1] == "a";
    assert Lines(s) == ["a"] + Lines("b\r");
  }

  function FirstNewline(s: string, j: nat): (k: nat)
    requires j <= |s|
    ensures j <= k <= |s| && (k < |s| ==> s[k] == '\n')
    ensures forall i :: j <= i < k ==> s[i] != '\n'
    decreases |s| - j
  {
    if j == |s| || s[j] == '\n' then j else FirstNewline(s, j + 1)
  }

  /**
   * What `display_simple` shows: the message alone when there is no span,
   * otherwise the message with the span's line, column and trimmed line text.
   */
  datatype SimpleDisplay = Plain(msg: string) | Positioned(msg: string, line: nat, col: nat, text: string)

  function DisplaySimple(e: Error): (d: SimpleDisplay)
    ensures e.span.None? <==> d == Plain(e.msg)
    ensures e.span.Some? ==>
              d.Positioned? && d.msg == e.msg && (d.line, d.col) == LineColAt(e.sourceCode, e.span.value.offset)
  {
    match e.span
    case None => Plain(e.msg)
    case Some(span) =>
      var (line, col) := LineColAt(e.sourceCode, span.offset);
      var lines := Lines(e.sourceCode);
      var text := if line - 1 < |lines| then lines[line - 1] else if |lines| > 0 then lines[|lines| - 1] else "";
      Positioned(e.msg, line, col, Trim(text))
  }
}
