/**
 * The character facts the Rust standard library supplies to the source:
 * `char::is_whitespace`, `char::len_utf8`, and `str::trim`.
 */
module Unicode {

  /** `char::is_whitespace`: the Unicode White_Space property. */
  predicate IsWhitespace(c: char) {
    ('\t' <= c <= '\r') || c == ' ' || c == '\U{0085}' || c == '\U{00A0}' || c == '\U{1680}'
    || ('\U{2000}' <= c <= '\U{200A}') || c == '\U{2028}' || c == '\U{2029}' || c == '\U{202F}'
    || c == '\U{205F}' || c == '\U{3000}'
  }

  predicate IsAscii(c: char) { c as int < 0x80 }

  predicate AllAscii(s: string) { forall i :: 0 <= i < |s| ==> IsAscii(s[i]) }

  predicate AllWhitespace(s: string) { forall i :: 0 <= i < |s| ==> IsWhitespace(s[i]) }

  /** A concatenation is blank iff both parts are. */
  lemma AllWhitespaceAppend(a: string, b: string)
    ensures AllWhitespace(a + b) <==> AllWhitespace(a) && AllWhitespace(b)
  {
    assert forall k :: 0 <= k < |a| ==> (a + b)[k] == a[k];
    assert forall k :: 0 <= k < |b| ==> (a + b)[|a| + k] == b[k];
    if AllWhitespace(a) && AllWhitespace(b) {
      forall k | 0 <= k < |a + b| ensures IsWhitespace((a + b)[k]) {
        if k >= |a| {
          assert (a + b)[k] == b[k - |a|];
        }
      }
    }
  }

  /** `char::len_utf8`: how many bytes UTF-8 needs for one scalar value. */
  function Utf8Width(c: char): (n: nat)
    ensures 1 <= n <= 4
    ensures n == 1 <==> IsAscii(c)
  {
    var v := c as int;
    if v < 0x80 then 1 else if v < 0x800 then 2 else if v < 0x1_0000 then 3 else 4
  }

  /** The byte length of `s` once encoded as UTF-8 (`str::len`). */
  function Utf8Len(s: string): nat
  {
    if s == [] then 0 else Utf8Width(s[0]) + Utf8Len(s[1..])
  }

  lemma {:induction false} Utf8LenAppend(s: string, t: string)
    ensures Utf8Len(s + t) == Utf8Len(s) + Utf8Len(t)
  {
    if s == [] {
      assert s + t == t;
    } else {
      assert (s + t)[1..] == s[1..] + t;
      Utf8LenAppend(s[1..], t);
    }
  }

  /** Every character takes between one and four bytes. */
  lemma {:induction false} Utf8LenBounds(s: string)
    ensures |s| <= Utf8Len(s) <= 4 * |s|
  {
    if s != [] {
      Utf8LenBounds(s[1..]);
    }
  }

  /** On ASCII text a byte count is a character count. */
  lemma {:induction false} Utf8LenAscii(s: string)
    requires AllAscii(s)
    ensures Utf8Len(s) == |s|
  {
    if s != [] {
      Utf8LenAscii(s[1..]);
    }
  }

  /** Byte offsets of character boundaries increase strictly with the boundary. */
  lemma Utf8LenPrefixStrict(s: string, j: nat, k: nat)
    requires j < k <= |s|
    ensures Utf8Len(s[..j]) < Utf8Len(s[..k])
  {
    assert s[..k] == s[..j] + s[j..k];
    Utf8LenAppend(s[..j], s[j..k]);
    Utf8LenBounds(s[j..k]);
  }

  /** The length of the run of whitespace that starts `s`. */
  function LeadingWhitespace(s: string): (n: nat)
    ensures n <= |s|
    ensures AllWhitespace(s[..n])
    ensures n < |s| ==> !IsWhitespace(s[n])
  {
    if s == [] || !IsWhitespace(s[0]) then 0 else 1 + LeadingWhitespace(s[1..])
  }

  /** The length of the run of whitespace that ends `s`. */
  function TrailingWhitespace(s: string): (n: nat)
    ensures n <= |s|
    ensures AllWhitespace(s[|s| - n..])
    ensures n < |s| ==> !IsWhitespace(s[|s| - n - 1])
  {
    if s == [] || !IsWhitespace(s[|s| - 1]) then 0 else 1 + TrailingWhitespace(s[..|s| - 1])
  }

  /** Cutting a suffix of `s` at `m` cuts `s` at `lead + m`. */
  lemma SliceOfSuffix(s: string, lead: nat, m: nat)
    requires lead + m <= |s|
    ensures s[lead..][..m] == s[lead..lead + m] && s[lead..][m..] == s[lead + m..]
    ensures s[lead..] == s[lead..][..m] + s[lead..][m..]
  {
  }

  /** The cut points `trim` uses: whitespace outside them, none at their edges. */
  lemma TrimCuts(s: string, lead: nat, trail: nat)
    requires lead == LeadingWhitespace(s) && trail == TrailingWhitespace(s[lead..])
    ensures lead <= |s| - trail
    ensures AllWhitespace(s[..lead]) && AllWhitespace(s[|s| - trail..])
    ensures var t := s[lead..|s| - trail]; t == [] || (!IsWhitespace(t[0]) && !IsWhitespace(t[|t| - 1]))
  {
    var rest := s[lead..];
    var m := |rest| - trail;
    SliceOfSuffix(s, lead, m);
    assert m > 0 ==> rest[m - 1] == s[|s| - trail - 1];
    var t := s[lead..|s| - trail];
    assert t != [] ==> t[0] == s[lead] && t[|t| - 1] == s[|s| - trail - 1];
  }

  /** With only whitespace outside `i..j`, that span is blank exactly when all of `s` is. */
  lemma BlankAcrossCuts(s: string, i: nat, j: nat)
    requires i <= j <= |s| && AllWhitespace(s[..i]) && AllWhitespace(s[j..])
    ensures AllWhitespace(s[i..j]) <==> AllWhitespace(s)
  {
    if AllWhitespace(s[i..j]) {
      forall k | 0 <= k < |s| ensures IsWhitespace(s[k]) {
        if k < i {
          assert s[..i][k] == s[k];
        } else if k < j {
          assert s[i..j][k - i] == s[k];
        } else {
          assert s[j..][k - j] == s[k];
        }
      }
    }
    if AllWhitespace(s) {
      forall k | 0 <= k < j - i ensures IsWhitespace(s[i..j][k]) {
        assert s[i..j][k] == s[i + k];
      }
    }
  }

  /** `str::trim`: `s` without leading and trailing whitespace. */
  function Trim(s: string): (t: string)
    ensures t == [] || (!IsWhitespace(t[0]) && !IsWhitespace(t[|t| - 1]))
    ensures exists i, j :: 0 <= i <= j <= |s| && t == s[i..j] && AllWhitespace(s[..i]) && AllWhitespace(s[j..])
    ensures AllWhitespace(t) <==> AllWhitespace(s)
  {
    var lead := LeadingWhitespace(s);
    var trail := TrailingWhitespace(s[lead..]);
    TrimCuts(s, lead, trail);
    BlankAcrossCuts(s, lead, |s| - trail);
    s[lead..|s| - trail]
  }
}
