/**
 * The parser combinators (stilts-lang/src/parse.rs): a parser takes the
 * current window and either returns the remaining window and a value or
 * fails with one of the three failure flows.
 */
module Parse {
  import Wrappers
  import opened Unicode
  import opened Errors
  import L = Locate

  type Window = L.Window

  /** `Parser::parse_next`: one step of parsing. */
  type Parser<T> = Window -> LResult<T>

  /** The empty window at the start of `w`, used to point at a position. */
  function Here(w: Window): (h: Window)
    ensures h.inner == w.inner && h.offset == w.offset && h.endOffset == w.offset
  {
    L.Slice(w, L.UpTo(0))
  }

  /** The window `w` with its first `k` characters dropped. */
  function Drop(w: Window, k: nat): (r: Window)
    requires k <= L.Len(w)
    ensures r.inner == w.inner && r.offset == w.offset + k && r.endOffset == w.endOffset
    ensures L.Spanned(r) == L.Spanned(w)[k..]
  {
    L.Slice(w, L.From(k))
  }

  /** The first `k` characters of `w`. */
  function Take(w: Window, k: nat): (r: Window)
    requires k <= L.Len(w)
    ensures r.inner == w.inner && r.offset == w.offset && r.endOffset == w.offset + k
    ensures L.Spanned(r) == L.Spanned(w)[..k]
  {
    L.Slice(w, L.UpTo(k))
  }

  /** `e.span(w)` on a fresh error. */
  function ErrorAt(msg: string, w: Window): (e: Error)
    ensures e.msg == msg && e.labelText == "here" && e.sourceCode == w.inner
    ensures e.span == Wrappers.Some(L.SourceSpan(L.ByteOffset(w), L.ByteLen(w)))
  {
    WithSpan(NewError(msg), w)
  }

  /**
   * A parser whose every success leaves a later part of the same window:
   * same text, same end, an offset no smaller. All parsers of the crate do.
   */
  ghost predicate SuffixParser<T>(p: Parser<T>)
  {
    forall w: Window :: p(w).Ok? ==> IsSuffix(p(w).rest, w)
  }

  predicate IsSuffix(r: Window, w: Window)
  {
    r.inner == w.inner && w.offset <= r.offset && r.endOffset == w.endOffset
  }

  /** `Parser::parse`: run on the whole text, keep the value, unwrap the flow. */
  function RunParser<T>(p: Parser<T>, s: string): (r: Wrappers.Result<T, Error>)
    ensures p(L.New(s)).Ok? <==> r.Ok?
    ensures r.Ok? ==> r.value == p(L.New(s)).value
    ensures r.Err? ==> r.error == IntoErr(p(L.New(s)).flow)
  {
    match p(L.New(s))
    case Ok(_, v) => Wrappers.Result.Ok(v)
    case Err(f) => Wrappers.Result.Err(IntoErr(f))
  }

  /** `Parser::map`: transform the value of a success. */
  function MapValue<T, O>(p: Parser<T>, f: T -> O, input: Window): (r: LResult<O>)
    ensures p(input).Ok? <==> r.Ok?
    ensures r.Ok? ==> r.rest == p(input).rest && r.value == f(p(input).value)
    ensures r.Err? ==> r.flow == p(input).flow
  {
    match p(input)
    case Ok(rem, v) => Ok(rem, f(v))
    case Err(e) => Err(e)
  }

  /** `Parser::and_then`: feed the remainder and the value to the next step. */
  function AndThen<T, O>(p: Parser<T>, f: (Window, T) -> LResult<O>, input: Window): (r: LResult<O>)
    ensures p(input).Ok? ==> r == f(p(input).rest, p(input).value)
    ensures p(input).Err? ==> r == Err(p(input).flow)
  {
    match p(input)
    case Ok(rem, v) => f(rem, v)
    case Err(e) => Err(e)
  }

  /** Sequencing two suffix parsers gives a suffix parser. */
  lemma AndThenSuffix<T, O>(p: Parser<T>, q: Parser<O>)
    requires SuffixParser(p) && SuffixParser(q)
    ensures SuffixParser((w: Window) => AndThen(p, (rem: Window, v: T) => q(rem), w))
  {
  }

  // ---------------------------------------------------------------------
  // Primitive parsers

  /**
   * `tag`: the next `|pat|` characters must be `pat`. A mismatch backtracks
   * pointing at those characters; too little input is incomplete.
   */
  function Tag(pat: string, input: Window): (r: LResult<Window>)
    ensures r.Ok? <==> |pat| <= L.Len(input) && L.Spanned(input)[..|pat|] == pat
    ensures r.Ok? ==> (L.Spanned(r.value) == pat && r.value == Take(input, |pat|)
                       && r.rest == Drop(input, |pat|))
    ensures |pat| > L.Len(input) ==> r == Err(Incomplete(ErrorAt("unexpected eof", Here(input))))
    ensures |pat| <= L.Len(input) && L.Spanned(input)[..|pat|] != pat ==>
              r == Err(Backtrack(ErrorAt("unexpected value", Take(input, |pat|))))
  {
    match L.TrySlice(input, L.UpTo(|pat|))
    case Some(next) =>
      if L.Spanned(next) == pat then Ok(L.Slice(input, L.From(|pat|)), next)
      else Err(Backtrack(ErrorAt("unexpected value", next)))
    case None => Err(Incomplete(ErrorAt("unexpected eof", Here(input))))
  }

  function TagP(pat: string): Parser<Window>
  {
    (input: Window) => Tag(pat, input)
  }

  /**
   * `whitespace0` as written: skip to the first character that is not
   * whitespace; when there is none the offset defaults to 0, so an input
   * made only of whitespace is not consumed at all.
   */
  function Whitespace0AsWritten(input: Window): (r: LResult<()>)
    ensures r.Ok?
    ensures var s := L.Spanned(input); var n := LeadingWhitespace(s);
      r.rest == Drop(input, if n < |s| then n else 0)
  {
    var s := L.Spanned(input);
    var n := LeadingWhitespace(s);
    Ok(Drop(input, if n < |s| then n else 0), ())
  }

  /** On `"  "` the as-written `whitespace0` leaves both spaces in place. */
  lemma Whitespace0AsWrittenKeepsAllWhitespace()
    ensures var r := Whitespace0AsWritten(L.New("  "));
      r.Ok? && L.Spanned(r.rest) == "  "
  {
    var s := "  ";
    assert IsWhitespace(s[0]) && IsWhitespace(s[1]);
    assert LeadingWhitespace(s) == 2;
  }

  /**
   * `whitespace0` as intended: consume every leading whitespace character,
   * all of them when the input is only whitespace.
   */
  function Whitespace0(input: Window): (r: LResult<()>)
    ensures r.Ok? && IsSuffix(r.rest, input)
    ensures var k := r.rest.offset - input.offset;
      AllWhitespace(L.Spanned(input)[..k]) && (L.Len(r.rest) > 0 ==> !IsWhitespace(L.Spanned(r.rest)[0]))
  {
    Ok(Drop(input, LeadingWhitespace(L.Spanned(input))), ())
  }

  /** Both versions agree whenever some character is not whitespace, or the input is empty. */
  lemma Whitespace0Agrees(input: Window)
    requires !AllWhitespace(L.Spanned(input)) || L.Len(input) == 0
    ensures Whitespace0AsWritten(input) == Whitespace0(input)
  {
  }

  /**
   * `whitespace1`: at least one whitespace character, then all that follow;
   * none at all backtracks with "expected whitespace".
   */
  function Whitespace1(input: Window): (r: LResult<()>)
    ensures r.Ok? <==> L.Len(input) > 0 && IsWhitespace(L.Spanned(input)[0])
    ensures r.Ok? ==> r == Whitespace0(input)
    ensures r.Err? ==> r == Err(Backtrack(ErrorAt("expected whitespace", Here(input))))
  {
    var n := LeadingWhitespace(L.Spanned(input));
    if n == 0 then Err(Backtrack(ErrorAt("expected whitespace", Here(input))))
    else Ok(Drop(input, n), ())
  }

  /** `anychar`: the next character, or incomplete at the end of the input. */
  function AnyChar(input: Window): (r: LResult<char>)
    ensures r.Ok? <==> L.Len(input) > 0
    ensures r.Ok? ==> r.value == L.Spanned(input)[0] && r.rest == Drop(input, 1)
    ensures r.Err? ==> r == Err(Incomplete(ErrorAt("unexpected eof", Here(input))))
  {
    if L.Len(input) == 0 then Err(Incomplete(ErrorAt("unexpected eof", Here(input))))
    else Ok(Drop(input, 1), L.Spanned(input)[0])
  }

  /** `eof`: succeed without consuming on an empty window, else backtrack. */
  function Eof(input: Window): (r: LResult<()>)
    ensures r.Ok? <==> L.Len(input) == 0
    ensures r.Ok? ==> r.rest == input
    ensures r.Err? ==> r == Err(Backtrack(NewError("not eof")))
  {
    if L.Len(input) == 0 then Ok(input, ()) else Err(Backtrack(NewError("not eof")))
  }

  /** Every primitive of the crate leaves a suffix of its input. */
  lemma PrimitivesAreSuffixParsers(pat: string)
    ensures SuffixParser(TagP(pat))
    ensures SuffixParser((w: Window) => Whitespace0AsWritten(w))
    ensures SuffixParser((w: Window) => Whitespace0(w))
    ensures SuffixParser((w: Window) => Whitespace1(w))
    ensures SuffixParser((w: Window) => AnyChar(w))
    ensures SuffixParser((w: Window) => Eof(w))
  {
  }

  // ---------------------------------------------------------------------
  // alt

  predicate Backtracked<T>(r: LResult<T>)
  {
    r.Err? && r.flow.Backtrack?
  }

  /**
   * `alt` over a tuple of parsers: the first result that is not a
   * backtrack, or whatever the last parser returns.
   */
  function Alt<T>(ps: seq<Parser<T>>, input: Window): (r: LResult<T>)
    requires |ps| >= 1
    ensures exists i :: (0 <= i < |ps| && r == ps[i](input)
                         && (forall j :: 0 <= j < i ==> Backtracked(ps[j](input)))
                         && (i < |ps| - 1 ==> !Backtracked(r)))
    decreases |ps|
  {
    if |ps| == 1 then ps[0](input)
    else
      var r0 := ps[0](input);
      if Backtracked(r0) then
        var r := Alt(ps[1..], input);
        assert forall i :: 0 <= i < |ps| - 1 ==> ps[1..][i] == ps[i + 1];
        r
      else r0
  }

  /** `alt` is a suffix parser when each alternative is. */
  lemma AltSuffix<T>(ps: seq<Parser<T>>)
    requires |ps| >= 1
    requires forall i :: 0 <= i < |ps| ==> SuffixParser(ps[i])
    ensures SuffixParser((w: Window) => Alt(ps, w))
  {
    forall w: Window | Alt(ps, w).Ok? ensures IsSuffix(Alt(ps, w).rest, w) {
      var i :| 0 <= i < |ps| && Alt(ps, w) == ps[i](w);
      assert ps[i](w).Ok?;
    }
  }

  // ---------------------------------------------------------------------
  // many_until and many_till

  const ManyUntilLoopMsg := "infinite loop in many_until f does not increment parser position"
  const ManyTillLoopMsg := "infinite loop in many_till f does not increment parser position"

  /**
   * What `many_until` computes from `part` with `items` collected so far:
   * while `g` backtracks run `f`, stopping with an error if `f` fails or
   * does not move; when `g` succeeds return `part` without consuming it.
   */
  function ManyUntilFrom<F, G>(f: Parser<F>, g: Parser<G>, part: Window, items: seq<F>): LResult<seq<F>>
    requires SuffixParser(f)
    decreases part.endOffset - part.offset
  {
    match g(part)
    case Ok(_, _) => Ok(part, items)
    case Err(Backtrack(_)) =>
      (match f(part)
       case Err(e) => Err(e)
       case Ok(next, item) =>
         assert IsSuffix(next, part);
         if part.offset == next.offset then Err(Backtrack(NewError(ManyUntilLoopMsg)))
         else ManyUntilFrom(f, g, next, items + [item]))
    case Err(e) => Err(e)
  }

  /** `many_until(f, g)`. */
  method ManyUntil<F, G>(f: Parser<F>, g: Parser<G>, input: Window) returns (r: LResult<seq<F>>)
    requires SuffixParser(f)
    ensures r == ManyUntilFrom(f, g, input, [])
  {
    var part := input;
    var items: seq<F> := [];
    var res := g(part);
    while Backtracked(res)
      invariant res == g(part)
      invariant ManyUntilFrom(f, g, part, items) == ManyUntilFrom(f, g, input, [])
      decreases part.endOffset - part.offset
    {
      var step := f(part);
      if step.Err? {
        return Err(step.flow);
      }
      assert IsSuffix(step.rest, part);
      if part.offset == step.rest.offset {
        return Err(Backtrack(NewError(ManyUntilLoopMsg)));
      }
      part := step.rest;
      items := items + [step.value];
      res := g(part);
    }
    match res
    case Ok(_, _) => r := Ok(part, items);
    case Err(e) => r := Err(e);
  }

  /**
   * On success `many_until` stops at a window where `g` succeeds, inside
   * the input, keeping the items collected before it and adding at most one
   * per character consumed; `ManyUntilTrace` gives the whole run.
   */
  lemma {:induction false} ManyUntilStops<F, G>(f: Parser<F>, g: Parser<G>, part: Window, items: seq<F>)
    requires SuffixParser(f)
    ensures var r := ManyUntilFrom(f, g, part, items);
      r.Ok? ==> (g(r.rest).Ok? && IsSuffix(r.rest, part)
                 && |items| <= |r.value| && r.value[..|items|] == items
                 && |r.value| - |items| <= r.rest.offset - part.offset)
    decreases part.endOffset - part.offset
  {
    var r := ManyUntilFrom(f, g, part, items);
    if r.Ok? && !g(part).Ok? {
      var next := f(part).rest;
      assert IsSuffix(next, part);
      ManyUntilStops(f, g, next, items + [f(part).value]);
      assert (items + [f(part).value])[..|items|] == items;
    }
  }

  /**
   * `ws` is a run of the `many_until` loop collecting `vals`: at every window
   * but the last `g` backtracks, `f` succeeds there with the next value and
   * moves strictly forward to the next window.
   */
  ghost predicate ManyUntilRun<F, G>(f: Parser<F>, g: Parser<G>, ws: seq<Window>, vals: seq<F>)
  {
    |ws| == |vals| + 1
    && forall i :: 0 <= i < |vals| ==>
         Backtracked(g(ws[i])) && f(ws[i]).Ok? && f(ws[i]).rest == ws[i + 1]
         && f(ws[i]).value == vals[i] && ws[i].offset < ws[i + 1].offset
  }

  /**
   * A successful `many_until` is exactly such a run: it starts at `part`,
   * ends where `g` first succeeds, and every collected item is the value of
   * one forward step of `f`, in order.
   */
  lemma {:induction false} ManyUntilTrace<F, G>(f: Parser<F>, g: Parser<G>, part: Window, items: seq<F>)
    returns (ws: seq<Window>)
    requires SuffixParser(f)
    ensures var r := ManyUntilFrom(f, g, part, items);
      r.Ok? ==> (|items| <= |r.value| && r.value[..|items|] == items
                 && ManyUntilRun(f, g, ws, r.value[|items|..])
                 && ws[0] == part && ws[|ws| - 1] == r.rest && g(r.rest).Ok?)
    decreases part.endOffset - part.offset
  {
    var r := ManyUntilFrom(f, g, part, items);
    ws := [part];
    if r.Ok? && !g(part).Ok? {
      var next := f(part).rest;
      var v := f(part).value;
      assert IsSuffix(next, part);
      var tail := ManyUntilTrace(f, g, next, items + [v]);
      ws := [part] + tail;
      assert (items + [v])[..|items|] == items;
      assert r.value[..|items| + 1] == items + [v];
      assert r.value[|items|..] == [v] + r.value[|items| + 1..];
      forall i | 0 <= i < |r.value[|items|..]|
        ensures Backtracked(g(ws[i])) && f(ws[i]).Ok? && f(ws[i]).rest == ws[i + 1]
          && f(ws[i]).value == r.value[|items|..][i] && ws[i].offset < ws[i + 1].offset
      {
        if i > 0 {
          assert ws[i] == tail[i - 1] && ws[i + 1] == tail[i];
          assert r.value[|items|..][i] == r.value[|items| + 1..][i - 1];
        }
      }
    }
  }

  /** Where `g` already succeeds `many_until` collects nothing and consumes nothing. */
  lemma ManyUntilImmediate<F, G>(f: Parser<F>, g: Parser<G>, input: Window)
    requires SuffixParser(f) && g(input).Ok?
    ensures ManyUntilFrom(f, g, input, []) == Ok(input, [])
  {
  }

  /**
   * The failure exits of both loops: an error of `g` other than a backtrack
   * is returned as is, so is an error of `f`, and a step of `f` that does not
   * move fails with a backtrack.
   */
  lemma ManyLoopFailures<F, G>(f: Parser<F>, g: Parser<G>, part: Window, items: seq<F>)
    requires SuffixParser(f)
    ensures g(part).Err? && !g(part).flow.Backtrack? ==>
              ManyUntilFrom(f, g, part, items) == Err(g(part).flow)
              && ManyTillFrom(f, g, part, items) == Err(g(part).flow)
    ensures Backtracked(g(part)) && f(part).Err? ==>
              ManyUntilFrom(f, g, part, items) == Err(f(part).flow)
              && ManyTillFrom(f, g, part, items) == Err(f(part).flow)
    ensures Backtracked(g(part)) && f(part).Ok? && f(part).rest.offset == part.offset ==>
              ManyUntilFrom(f, g, part, items) == Err(Backtrack(NewError(ManyUntilLoopMsg)))
              && ManyTillFrom(f, g, part, items) == Err(Backtrack(ErrorAt(ManyTillLoopMsg, Here(part))))
  {
  }

  /** The same loop as `many_until`, but it consumes what `g` matched and returns its value. */
  function ManyTillFrom<F, G>(f: Parser<F>, g: Parser<G>, part: Window, items: seq<F>): LResult<(seq<F>, G)>
    requires SuffixParser(f)
    decreases part.endOffset - part.offset
  {
    match g(part)
    case Ok(rem, fin) => Ok(rem, (items, fin))
    case Err(Backtrack(_)) =>
      (match f(part)
       case Err(e) => Err(e)
       case Ok(next, item) =>
         assert IsSuffix(next, part);
         if part.offset == next.offset then Err(Backtrack(ErrorAt(ManyTillLoopMsg, Here(part))))
         else ManyTillFrom(f, g, next, items + [item]))
    case Err(e) => Err(e)
  }

  /** `many_till(f, g)`. */
  method ManyTill<F, G>(f: Parser<F>, g: Parser<G>, input: Window) returns (r: LResult<(seq<F>, G)>)
    requires SuffixParser(f)
    ensures r == ManyTillFrom(f, g, input, [])
  {
    var part := input;
    var items: seq<F> := [];
    var res := g(part);
    while Backtracked(res)
      invariant res == g(part)
      invariant ManyTillFrom(f, g, part, items) == ManyTillFrom(f, g, input, [])
      decreases part.endOffset - part.offset
    {
      var step := f(part);
      if step.Err? {
        return Err(step.flow);
      }
      assert IsSuffix(step.rest, part);
      if part.offset == step.rest.offset {
        return Err(Backtrack(ErrorAt(ManyTillLoopMsg, Here(part))));
      }
      part := step.rest;
      items := items + [step.value];
      res := g(part);
    }
    match res
    case Ok(rem, fin) => r := Ok(rem, (items, fin));
    case Err(e) => r := Err(e);
  }

  /**
   * `many_till` is `many_until` followed by `g`: the same items, and the
   * remainder and value of `g` at the place where `many_until` stops.
   */
  lemma {:induction false} ManyTillIsManyUntilThenG<F, G>(f: Parser<F>, g: Parser<G>, part: Window, items: seq<F>)
    requires SuffixParser(f)
    ensures var u := ManyUntilFrom(f, g, part, items);
      var t := ManyTillFrom(f, g, part, items);
      u.Ok? <==> t.Ok?
    ensures var u := ManyUntilFrom(f, g, part, items);
      var t := ManyTillFrom(f, g, part, items);
      u.Ok? ==> t.value.0 == u.value && g(u.rest) == Ok(t.rest, t.value.1)
    decreases part.endOffset - part.offset
  {
    if Backtracked(g(part)) && f(part).Ok? {
      var next := f(part).rest;
      assert IsSuffix(next, part);
      if part.offset != next.offset {
        ManyTillIsManyUntilThenG(f, g, next, items + [f(part).value]);
      }
    }
  }

  // ---------------------------------------------------------------------
  // take_until and take_till

  /**
   * What `take_until` computes from `part`: while `pat` backtracks move one
   * character on, failing as incomplete at the end; on success return what
   * was skipped, leaving `pat`'s match in the remainder.
   */
  function TakeUntilFrom<T>(pat: Parser<T>, input: Window, part: Window): LResult<Window>
    requires IsSuffix(part, input)
    decreases part.endOffset - part.offset
  {
    match pat(part)
    case Ok(_, _) => Ok(part, Take(input, part.offset - input.offset))
    case Err(Backtrack(_)) =>
      (match L.TrySlice(part, L.From(1))
       case None => Err(Incomplete(ErrorAt("unexpected eof", Here(part))))
       case Some(next) => TakeUntilFrom(pat, input, next))
    case Err(e) => Err(e)
  }

  /** `take_until(pat)`. */
  method TakeUntil<T>(pat: Parser<T>, input: Window) returns (r: LResult<Window>)
    ensures r == TakeUntilFrom(pat, input, input)
  {
    var part := input;
    var res := pat(part);
    while Backtracked(res)
      invariant IsSuffix(part, input)
      invariant res == pat(part)
      invariant TakeUntilFrom(pat, input, part) == TakeUntilFrom(pat, input, input)
      decreases part.endOffset - part.offset
    {
      var next := L.TrySlice(part, L.From(1));
      if next.None? {
        return Err(Incomplete(ErrorAt("unexpected eof", Here(part))));
      }
      part := next.value;
      res := pat(part);
    }
    match res
    case Ok(_, _) => r := Ok(part, Take(input, part.offset - input.offset));
    case Err(e) => r := Err(e);
  }

  /** `take_till`: like `take_until`, but it also consumes `pat`'s match and returns its value. */
  function TakeTillFrom<T>(pat: Parser<T>, input: Window, part: Window): LResult<(Window, T)>
    requires IsSuffix(part, input)
    decreases part.endOffset - part.offset
  {
    match pat(part)
    case Ok(rem, v) => Ok(rem, (Take(input, part.offset - input.offset), v))
    case Err(Backtrack(_)) =>
      (match L.TrySlice(part, L.From(1))
       case None => Err(Incomplete(ErrorAt("unexpected eof", Here(part))))
       case Some(next) => TakeTillFrom(pat, input, next))
    case Err(e) => Err(e)
  }

  /** `take_till(pat)`. */
  method TakeTill<T>(pat: Parser<T>, input: Window) returns (r: LResult<(Window, T)>)
    ensures r == TakeTillFrom(pat, input, input)
  {
    var part := input;
    var res := pat(part);
    while Backtracked(res)
      invariant IsSuffix(part, input)
      invariant res == pat(part)
      invariant TakeTillFrom(pat, input, part) == TakeTillFrom(pat, input, input)
      decreases part.endOffset - part.offset
    {
      var next := L.TrySlice(part, L.From(1));
      if next.None? {
        return Err(Incomplete(ErrorAt("unexpected eof", Here(part))));
      }
      part := next.value;
      res := pat(part);
    }
    match res
    case Ok(rem, v) => r := Ok(rem, (Take(input, part.offset - input.offset), v));
    case Err(e) => r := Err(e);
  }

  /**
   * `take_until` finds the first position where `pat` succeeds: what it
   * takes and what it leaves make up the input, `pat` succeeds on the
   * remainder, and `pat` backtracked at every earlier position.
   */
  lemma {:induction false} TakeUntilFirstMatch<T>(pat: Parser<T>, input: Window, part: Window)
    requires IsSuffix(part, input)
    requires forall k :: 0 <= k < part.offset - input.offset ==> Backtracked(pat(Drop(input, k)))
    ensures var r := TakeUntilFrom(pat, input, part);
      r.Ok? ==> (IsSuffix(r.rest, input) && pat(r.rest).Ok?
                 && L.Spanned(r.value) + L.Spanned(r.rest) == L.Spanned(input)
                 && forall k :: 0 <= k < r.rest.offset - input.offset ==> Backtracked(pat(Drop(input, k))))
    decreases part.endOffset - part.offset
  {
    var r := TakeUntilFrom(pat, input, part);
    var k := part.offset - input.offset;
    assert part == Drop(input, k);
    if pat(part).Ok? {
      L.SplitPartitions(input, k);
    } else if Backtracked(pat(part)) && L.TrySlice(part, L.From(1)).Some? {
      var next := L.TrySlice(part, L.From(1)).value;
      forall j | 0 <= j < next.offset - input.offset ensures Backtracked(pat(Drop(input, j))) {
        if j == k {
          assert Drop(input, j) == part;
        }
      }
      TakeUntilFirstMatch(pat, input, next);
    }
  }

  /** If `pat` backtracks everywhere, `take_until` fails as incomplete at the end of the input. */
  lemma {:induction false} TakeUntilNoMatch<T>(pat: Parser<T>, input: Window, part: Window)
    requires IsSuffix(part, input)
    requires forall k :: part.offset - input.offset <= k <= L.Len(input) ==> Backtracked(pat(Drop(input, k)))
    ensures TakeUntilFrom(pat, input, part)
      == Err(Incomplete(ErrorAt("unexpected eof", Here(Drop(input, L.Len(input))))))
    decreases part.endOffset - part.offset
  {
    var k := part.offset - input.offset;
    assert part == Drop(input, k);
    if L.TrySlice(part, L.From(1)).Some? {
      TakeUntilNoMatch(pat, input, L.TrySlice(part, L.From(1)).value);
    }
  }

  /** `take_till` is `take_until` followed by `pat` at the place where it stops. */
  lemma {:induction false} TakeTillIsTakeUntilThenPat<T>(pat: Parser<T>, input: Window, part: Window)
    requires IsSuffix(part, input)
    ensures var u := TakeUntilFrom(pat, input, part);
      var t := TakeTillFrom(pat, input, part);
      (u.Ok? <==> t.Ok?) && (u.Ok? ==> t.value.0 == u.value && pat(u.rest) == Ok(t.rest, t.value.1))
        && (u.Err? ==> t.flow == u.flow)
    decreases part.endOffset - part.offset
  {
    if Backtracked(pat(part)) && L.TrySlice(part, L.From(1)).Some? {
      TakeTillIsTakeUntilThenPat(pat, input, L.TrySlice(part, L.From(1)).value);
    }
  }

  /**
   * Conversely, if `pat` backtracks at every position before `k` and
   * succeeds at `k`, `take_until` takes exactly the first `k` characters
   * and `take_till` also consumes `pat`'s match.
   */
  lemma {:induction false} TakeUntilFindsFirst<T>(pat: Parser<T>, input: Window, part: Window, k: nat)
    requires IsSuffix(part, input) && part.offset - input.offset <= k <= L.Len(input)
    requires forall j :: part.offset - input.offset <= j < k ==> Backtracked(pat(Drop(input, j)))
    requires pat(Drop(input, k)).Ok?
    ensures TakeUntilFrom(pat, input, part) == Ok(Drop(input, k), Take(input, k))
    ensures TakeTillFrom(pat, input, part)
      == Ok(pat(Drop(input, k)).rest, (Take(input, k), pat(Drop(input, k)).value))
    decreases part.endOffset - part.offset
  {
    var j := part.offset - input.offset;
    assert part == Drop(input, j);
    if j < k {
      var next := L.TrySlice(part, L.From(1)).value;
      assert next == Drop(input, j + 1);
      TakeUntilFindsFirst(pat, input, next, k);
    }
  }

  /**
   * Where `pat` first fails without backtracking, at `k`, both loops stop
   * there and return that failure.
   */
  lemma {:induction false} TakeUntilPropagates<T>(pat: Parser<T>, input: Window, part: Window, k: nat)
    requires IsSuffix(part, input) && part.offset - input.offset <= k <= L.Len(input)
    requires forall j :: part.offset - input.offset <= j < k ==> Backtracked(pat(Drop(input, j)))
    requires pat(Drop(input, k)).Err? && !Backtracked(pat(Drop(input, k)))
    ensures TakeUntilFrom(pat, input, part) == Err(pat(Drop(input, k)).flow)
    ensures TakeTillFrom(pat, input, part) == Err(pat(Drop(input, k)).flow)
    decreases part.endOffset - part.offset
  {
    var j := part.offset - input.offset;
    assert part == Drop(input, j);
    if j < k {
      var next := L.TrySlice(part, L.From(1)).value;
      assert next == Drop(input, j + 1);
      TakeUntilPropagates(pat, input, next, k);
    }
  }

  /**
   * `many_until(anychar, g)` collects every character before the first
   * position where `g` succeeds, and stops there.
   */
  lemma {:induction false} ManyUntilAnyChar<G>(g: Parser<G>, input: Window, part: Window, items: seq<char>, k: nat)
    requires IsSuffix(part, input) && part.offset - input.offset <= k <= L.Len(input)
    requires items == L.Spanned(input)[..part.offset - input.offset]
    requires forall j :: part.offset - input.offset <= j < k ==> Backtracked(g(Drop(input, j)))
    requires g(Drop(input, k)).Ok?
    ensures ManyUntilFrom(AnyCharP(), g, part, items) == Ok(Drop(input, k), L.Spanned(input)[..k])
    ensures ManyTillFrom(AnyCharP(), g, part, items)
      == Ok(g(Drop(input, k)).rest, (L.Spanned(input)[..k], g(Drop(input, k)).value))
    decreases part.endOffset - part.offset
  {
    var j := part.offset - input.offset;
    assert part == Drop(input, j);
    if j < k {
      var next := Drop(input, j + 1);
      assert AnyCharP()(part) == Ok(next, L.Spanned(input)[j]);
      assert L.Spanned(input)[..j + 1] == items + [L.Spanned(input)[j]];
      ManyUntilAnyChar(g, input, next, items + [L.Spanned(input)[j]], k);
    }
  }

  // ---------------------------------------------------------------------
  // The repository's parser tests, as facts about the model

  lemma TagExample()
    ensures var r := Tag("my", L.New("my input"));
      r.Ok? && L.Spanned(r.value) == "my" && L.Spanned(r.rest) == " input"
  {
  }

  lemma Whitespace0Examples()
    ensures L.Spanned(Whitespace0(L.New("  s")).rest) == "s"
    ensures L.Spanned(Whitespace0(L.New("s")).rest) == "s"
  {
    var a := "  s";
    assert IsWhitespace(a[0]) && IsWhitespace(a[1]) && !IsWhitespace(a[2]);
    assert LeadingWhitespace(a) == 2;
    var b := "s";
    assert !IsWhitespace(b[0]);
  }

  lemma Whitespace1Skips()
    ensures Whitespace1(L.New("   s")).Ok? && L.Spanned(Whitespace1(L.New("   s")).rest) == "s"
  {
    var b := "   s";
    assert IsWhitespace(b[0]) && IsWhitespace(b[1]) && IsWhitespace(b[2]) && !IsWhitespace(b[3]);
    assert LeadingWhitespace(b) == 3;
    CharsAgree(b[3..], "s");
  }

  lemma Whitespace1Rejects()
    ensures Whitespace1(L.New("s ")).Err?
  {
    var c := "s ";
    assert !IsWhitespace(c[0]);
  }

  lemma Whitespace1Consumes()
    ensures Whitespace1(L.New(" ")).Ok? && L.Spanned(Whitespace1(L.New(" ")).rest) == ""
  {
    var d := " ";
    assert IsWhitespace(d[0]);
  }

  lemma AnyCharExample()
    ensures var r := AnyChar(L.New("abcdef"));
      r.Ok? && r.value == 'a' && L.Spanned(r.rest) == "bcdef"
  {
  }

  /** `tag` backtracks where the first character already differs. */
  lemma TagMismatch(pat: string, input: Window)
    requires 0 < |pat| <= L.Len(input) && L.Spanned(input)[0] != pat[0]
    ensures Backtracked(TagP(pat)(input))
  {
    assert L.Spanned(input)[..|pat|][0] == L.Spanned(input)[0];
  }

  /** `tag` matches where each of its characters is in place. */
  lemma TagMatch(pat: string, input: Window)
    requires |pat| <= L.Len(input) && forall i :: 0 <= i < |pat| ==> L.Spanned(input)[i] == pat[i]
    ensures TagP(pat)(input).Ok?
  {
    assert L.Spanned(input)[..|pat|] == pat;
  }

  lemma TakeUntilExampleD()
    ensures var r := TakeUntilFrom(TagP("d"), L.New("abcdef"), L.New("abcdef"));
      r.Ok? && L.Spanned(r.rest) == "def" && L.Spanned(r.value) == "abc"
    ensures var r := TakeTillFrom(TagP("d"), L.New("abcdef"), L.New("abcdef"));
      r.Ok? && L.Spanned(r.rest) == "ef" && L.Spanned(r.value.0) == "abc" && L.Spanned(r.value.1) == "d"
  {
    var w := L.New("abcdef");
    var p := TagP("d");
    forall j | 0 <= j < 3 ensures Backtracked(p(Drop(w, j))) {
      TagMismatch("d", Drop(w, j));
    }
    TagMatch("d", Drop(w, 3));
    TakeUntilFindsFirst(p, w, w, 3);
    AbcdefPieces(w);
  }

  /** Where `abcdef` splits around its `d`. */
  lemma AbcdefPieces(w: Window)
    requires w == L.New("abcdef")
    ensures L.Spanned(Take(w, 3)) == "abc" && L.Spanned(w)[..3] == ['a', 'b', 'c']
    ensures L.Spanned(Drop(w, 3)) == "def" && L.Spanned(Drop(w, 4)) == "ef"
  {
    var s := L.Spanned(w);
    CharsAgree(s[..3], "abc");
    CharsAgree(s[3..], "def");
    CharsAgree(s[4..], "ef");
  }

  lemma TakeUntilExampleF()
    ensures var r := TakeUntilFrom(TagP("f"), L.New("abcdef"), L.New("abcdef"));
      r.Ok? && L.Spanned(r.rest) == "f" && L.Spanned(r.value) == "abcde"
  {
    var w := L.New("abcdef");
    var p := TagP("f");
    BacktracksBeforeF(w);
    TagMatch("f", Drop(w, 5));
    TakeUntilFindsFirst(p, w, w, 5);
    FirstFiveOfAbcdef(w);
  }

  lemma TakeTillExampleF()
    ensures var r := TakeTillFrom(TagP("f"), L.New("abcdef"), L.New("abcdef"));
      r.Ok? && L.Spanned(r.rest) == "" && L.Spanned(r.value.0) == "abcde" && L.Spanned(r.value.1) == "f"
  {
    var w := L.New("abcdef");
    TakeUntilExampleF();
    TakeTillIsTakeUntilThenPat(TagP("f"), w, w);
    TagMatch("f", Drop(w, 5));
  }

  lemma TakeUntilExampleClose()
    ensures var r := TakeUntilFrom(TagP("%}"), L.New(" i %}"), L.New(" i %}"));
      r.Ok? && L.Spanned(r.rest) == "%}" && L.Spanned(r.value) == " i "
  {
    var w := L.New(" i %}");
    BacktracksBeforeClose(w);
    TakeUntilFindsFirst(TagP("%}"), w, w, 3);
    CloseHead(w);
  }

  lemma CloseHead(w: Window)
    requires w == L.New(" i %}")
    ensures L.Spanned(Take(w, 3)) == " i "
  {
    var head := L.Spanned(Take(w, 3));
    assert head[0] == ' ' && head[1] == 'i' && head[2] == ' ';
    CharsAgree(head, " i ");
  }

  /** Two strings with the same characters in the same places are equal. */
  lemma CharsAgree(s: string, t: string)
    requires |s| == |t| && forall i :: 0 <= i < |s| ==> s[i] == t[i]
    ensures s == t
  {
  }

  lemma BacktracksBeforeClose(w: Window)
    requires w == L.New(" i %}")
    ensures forall j :: 0 <= j < 3 ==> Backtracked(TagP("%}")(Drop(w, j)))
    ensures TagP("%}")(Drop(w, 3)).Ok? && L.Spanned(Drop(w, 3)) == "%}"
  {
    forall j | 0 <= j < 3 ensures Backtracked(TagP("%}")(Drop(w, j))) {
      TagMismatch("%}", Drop(w, j));
    }
    TagMatch("%}", Drop(w, 3));
  }

  /** `anychar` as a parser value; it always leaves a suffix. */
  function AnyCharP(): (p: Parser<char>)
    ensures SuffixParser(p)
  {
    (w: Window) => AnyChar(w)
  }

  lemma ManyUntilExampleD()
    ensures var r := ManyUntilFrom(AnyCharP(), TagP("d"), L.New("abcdef"), []);
      r.Ok? && L.Spanned(r.rest) == "def" && r.value == ['a', 'b', 'c']
    ensures var r := ManyTillFrom(AnyCharP(), TagP("d"), L.New("abcdef"), []);
      r.Ok? && L.Spanned(r.rest) == "ef" && r.value.0 == ['a', 'b', 'c'] && L.Spanned(r.value.1) == "d"
  {
    var w := L.New("abcdef");
    var g := TagP("d");
    forall j | 0 <= j < 3 ensures Backtracked(g(Drop(w, j))) {
      TagMismatch("d", Drop(w, j));
    }
    TagMatch("d", Drop(w, 3));
    PrimitivesAreSuffixParsers("d");
    ManyUntilAnyChar(g, w, w, [], 3);
    AbcdefPieces(w);
  }

  lemma ManyTillExampleF()
    ensures var r := ManyTillFrom(AnyCharP(), TagP("f"), L.New("abcdef"), []);
      r.Ok? && L.Spanned(r.rest) == "" && r.value.0 == ['a', 'b', 'c', 'd', 'e'] && L.Spanned(r.value.1) == "f"
  {
    var w := L.New("abcdef");
    ManyUntilExampleF();
    ManyTillIsManyUntilThenG(AnyCharP(), TagP("f"), w, []);
    TagMatch("f", Drop(w, 5));
  }

  lemma ManyUntilExampleF()
    ensures var r := ManyUntilFrom(AnyCharP(), TagP("f"), L.New("abcdef"), []);
      r.Ok? && L.Spanned(r.rest) == "f" && r.value == ['a', 'b', 'c', 'd', 'e']
  {
    var w := L.New("abcdef");
    var g := TagP("f");
    BacktracksBeforeF(w);
    TagMatch("f", Drop(w, 5));
    ManyUntilAnyChar(g, w, w, [], 5);
    FirstFiveOfAbcdef(w);
  }

  lemma FirstFiveOfAbcdef(w: Window)
    requires w == L.New("abcdef")
    ensures L.Spanned(w)[..5] == ['a', 'b', 'c', 'd', 'e'] && L.Spanned(Take(w, 5)) == "abcde"
  {
    CharsAgree(L.Spanned(w)[..5], "abcde");
  }

  lemma BacktracksBeforeF(w: Window)
    requires w == L.New("abcdef")
    ensures forall j :: 0 <= j < 5 ==> Backtracked(TagP("f")(Drop(w, j)))
    ensures L.Spanned(Drop(w, 5)) == "f" && L.Len(Drop(w, 5)) == 1
  {
    forall j | 0 <= j < 5 ensures Backtracked(TagP("f")(Drop(w, j))) {
      TagMismatch("f", Drop(w, j));
    }
  }
}
