/** The few Python string built-ins the protocol relies on, over `string` (= `seq<char>`):
    `str.strip`, `str.split(sep, maxsplit)`, `sep.join`, `str(n)` for a natural number,
    `str.zfill` and `str.lstrip('0')`. */
module Text {
  import opened Wrappers

  // ---------------------------------------------------------------------------
  // Whitespace and stripping
  // ---------------------------------------------------------------------------

  /** Python's `str.isspace()` character set: U+0009..U+000D, U+001C..U+0020, U+0085,
      U+00A0, U+1680, U+2000..U+200A, U+2028, U+2029, U+202F, U+205F and U+3000. */
  predicate IsSpace(c: char) {
    || ('\t' <= c <= '\r')
    || ('\U{1C}' <= c <= ' ')
    || c == '\U{85}' || c == '\U{A0}' || c == '\U{1680}'
    || ('\U{2000}' <= c <= '\U{200A}')
    || c == '\U{2028}' || c == '\U{2029}' || c == '\U{202F}' || c == '\U{205F}' || c == '\U{3000}'
  }

  predicate AllSpace(s: string) {
    forall i :: 0 <= i < |s| ==> IsSpace(s[i])
  }

  predicate EndsInSpace(s: string) {
    s != [] && IsSpace(s[|s| - 1])
  }

  /** `s.lstrip()`: the longest suffix of `s` that does not start with whitespace. */
  function StripLeft(s: string): (r: string)
    ensures |r| <= |s| && r == s[|s| - |r|..]
    ensures forall i :: 0 <= i < |s| - |r| ==> IsSpace(s[i])
    ensures r == [] || !IsSpace(r[0])
    decreases |s|
  {
    if s != [] && IsSpace(s[0]) then
      var r := StripLeft(s[1..]);
      assert s[1..][|s| - 1 - |r|..] == s[|s| - |r|..];
      assert forall i :: 1 <= i < |s| - |r| ==> s[i] == s[1..][i - 1];
      r
    else
      s
  }

  /** `s.rstrip()`: the longest prefix of `s` that does not end in whitespace. */
  function StripRight(s: string): (r: string)
    ensures |r| <= |s| && r == s[..|r|]
    ensures forall i :: |r| <= i < |s| ==> IsSpace(s[i])
    ensures !EndsInSpace(r)
    decreases |s|
  {
    if EndsInSpace(s) then
      var r := StripRight(s[..|s| - 1]);
      assert forall i :: |r| <= i < |s| - 1 ==> s[i] == s[..|s| - 1][i];
      r
    else
      s
  }

  /** `s.strip()`: whitespace removed at both ends; empty exactly when `s` is all whitespace. */
  function Strip(s: string): (r: string)
    ensures r == [] <==> AllSpace(s)
    ensures r == [] || (!IsSpace(r[0]) && !IsSpace(r[|r| - 1]))
  {
    var l := StripLeft(s);
    var r := StripRight(l);
    assert r != [] ==> r[0] == l[0];
    assert AllSpace(s) ==> l == [];
    r
  }

  /** Left-stripping a concatenation: the first part is consumed whole only if it is all
      whitespace. */
  lemma {:induction false} StripLeftAppend(a: string, b: string)
    ensures StripLeft(a + b) == if AllSpace(a) then StripLeft(b) else StripLeft(a) + b
    decreases |a|
  {
    if a == [] {
      assert a + b == b;
    } else if IsSpace(a[0]) {
      assert (a + b)[0] == a[0];
      assert (a + b)[1..] == a[1..] + b;
      StripLeftAppend(a[1..], b);
      assert StripLeft(a + b) == StripLeft(a[1..] + b);
      assert StripLeft(a) == StripLeft(a[1..]);
      AllSpaceTail(a);
    } else {
      assert (a + b)[0] == a[0];
      assert !AllSpace(a);
      assert StripLeft(a + b) == a + b;
      assert StripLeft(a) == a;
    }
  }

  /** Past a leading whitespace character, the rest decides whether all is whitespace. */
  lemma AllSpaceTail(a: string)
    requires a != [] && IsSpace(a[0])
    ensures AllSpace(a) <==> AllSpace(a[1..])
  {
    assert forall i :: 1 <= i < |a| ==> a[i] == a[1..][i - 1];
  }

  /** Right-stripping a concatenation: the second part is consumed whole only if it is all
      whitespace. */
  lemma {:induction false} StripRightAppend(a: string, b: string)
    ensures StripRight(a + b) == if AllSpace(b) then StripRight(a) else a + StripRight(b)
    decreases |b|
  {
    if b != [] {
      var b' := b[..|b| - 1];
      assert (a + b)[..|a + b| - 1] == a + b';
      StripRightAppend(a, b');
      if IsSpace(b[|b| - 1]) {
        assert AllSpace(b) <==> AllSpace(b');
      }
    } else {
      assert a + b == a;
    }
  }

  /** Stripping only removes characters: whatever is absent from `s` is absent from the
      result. */
  lemma StripKeepsOut(s: string, c: char)
    requires c !in s
    ensures c !in Strip(s)
  {
  }

  /** Stripping `p c l c d` around two non-space separators `c`: only the start of `p` and the
      end of `d` can lose whitespace. */
  lemma StripAroundSeparators(p: string, l: string, d: string, c: char)
    requires !IsSpace(c)
    ensures Strip(p + [c] + l + [c] + d) == StripLeft(p) + [c] + l + [c] + StripRight(d)
  {
    var tail := [c] + l + [c] + d;
    var x := StripLeft(p) + [c] + l + [c];
    assert p + [c] + l + [c] + d == p + tail;
    assert StripLeft(p) + tail == x + d;
    StripLeftBeforeSeparator(p, tail);
    StripRightAfterSeparator(x, d);
  }

  lemma StripLeftBeforeSeparator(p: string, tail: string)
    requires tail != [] && !IsSpace(tail[0])
    ensures StripLeft(p + tail) == StripLeft(p) + tail
  {
    StripLeftAppend(p, tail);
  }

  lemma StripRightAfterSeparator(x: string, d: string)
    requires x != [] && !IsSpace(x[|x| - 1])
    ensures StripRight(x + d) == x + StripRight(d)
  {
    StripRightAppend(x, d);
  }

  /** Right-stripping keeps the length exactly when there is no trailing whitespace. */
  lemma StripRightLength(s: string)
    ensures |StripRight(s)| == |s| <==> !EndsInSpace(s)
    ensures !EndsInSpace(s) ==> StripRight(s) == s
  {
  }

  /** Left-stripping twice is left-stripping once. */
  lemma StripLeftIdempotent(s: string)
    ensures StripLeft(StripLeft(s)) == StripLeft(s)
  {
  }

  /** Trailing padding makes no difference once a field is stripped. */
  lemma StripPadded(s: string, pad: string)
    requires AllSpace(pad)
    ensures Strip(StripLeft(s + pad)) == Strip(s)
  {
    StripLeftIdempotent(s + pad);
    StripLeftAppend(s, pad);
    if !AllSpace(s) {
      StripRightAppend(StripLeft(s), pad);
    }
  }

  /** Stripping leaves a string that starts and ends with non-whitespace unchanged. */
  lemma StripUnchanged(s: string)
    requires s == [] || (!IsSpace(s[0]) && !EndsInSpace(s))
    ensures Strip(s) == s
  {
  }

  // ---------------------------------------------------------------------------
  // Searching, splitting and joining on a single-character separator
  // ---------------------------------------------------------------------------

  /** Occurrences of `c` in `s` (Python's `s.count(c)`). */
  function Count(s: string, c: char): nat {
    multiset(s)[c]
  }

  /** `s.find(c)`, with "not found" as `None`: the first position holding `c`. */
  function IndexOf(s: string, c: char): (r: Option<nat>)
    ensures r.None? <==> c !in s
    ensures r.Some? ==> r.value < |s| && s[r.value] == c && c !in s[..r.value]
  {
    if s == [] then None
    else if s[0] == c then Some(0)
    else
      match IndexOf(s[1..], c)
      case None => None
      case Some(i) =>
        assert s[..i + 1] == [s[0]] + s[1..][..i];
        Some(i + 1)
  }

  /** `d.join(xs)`: the pieces with one `d` between neighbours; the empty list joins to "". */
  function Join(xs: seq<string>, d: char): string {
    if |xs| == 0 then []
    else if |xs| == 1 then xs[0]
    else xs[0] + [d] + Join(xs[1..], d)
  }

  /** `s.split(d, maxsplit)`: splits at the first `maxsplit` occurrences of `d`
      (every occurrence when `maxsplit` is negative, Python's default of -1). The pieces
      `SplitNJoin`, `SplitNFree`, `SplitNLast` and `SplitNCount` state what the pieces are. */
  function SplitN(s: string, d: char, maxsplit: int): (r: seq<string>)
    ensures |r| >= 1
    decreases |s|
  {
    if maxsplit == 0 then [s]
    else
      match IndexOf(s, d)
      case None => [s]
      case Some(i) =>
        [s[..i]] + SplitN(s[i + 1..], d, if maxsplit < 0 then maxsplit else maxsplit - 1)
  }

  /** Every piece but the last is free of `d`. */
  lemma {:induction false} SplitNFree(s: string, d: char, maxsplit: int)
    ensures forall k :: 0 <= k < |SplitN(s, d, maxsplit)| - 1 ==> d !in SplitN(s, d, maxsplit)[k]
    decreases |s|
  {
    if maxsplit != 0 {
      match IndexOf(s, d)
      case None =>
      case Some(i) =>
        var rest := SplitN(s[i + 1..], d, if maxsplit < 0 then maxsplit else maxsplit - 1);
        SplitNFree(s[i + 1..], d, if maxsplit < 0 then maxsplit else maxsplit - 1);
        var r := SplitN(s, d, maxsplit);
        assert r == [s[..i]] + rest;
        assert forall k :: 1 <= k < |r| ==> r[k] == rest[k - 1];
    }
  }

  lemma JoinCons(x: string, rest: seq<string>, d: char)
    requires |rest| >= 1
    ensures Join([x] + rest, d) == x + [d] + Join(rest, d)
  {
    assert ([x] + rest)[1..] == rest;
  }

  /** The pieces of a split join back to the original string. */
  lemma {:induction false} SplitNJoin(s: string, d: char, maxsplit: int)
    ensures Join(SplitN(s, d, maxsplit), d) == s
    decreases |s|
  {
    if maxsplit == 0 {
      assert SplitN(s, d, maxsplit) == [s];
    } else {
      match IndexOf(s, d)
      case None =>
        assert SplitN(s, d, maxsplit) == [s];
      case Some(i) =>
        var m := if maxsplit < 0 then maxsplit else maxsplit - 1;
        SplitNJoin(s[i + 1..], d, m);
        var rest := SplitN(s[i + 1..], d, m);
        assert SplitN(s, d, maxsplit) == [s[..i]] + rest;
        JoinAround(s, d, i, rest);
    }
  }

  /** Joining the piece before a `d` at `i` with pieces that join to what follows it gives
      back the whole string. */
  lemma JoinAround(s: string, d: char, i: nat, rest: seq<string>)
    requires i < |s| && s[i] == d && |rest| >= 1 && Join(rest, d) == s[i + 1..]
    ensures Join([s[..i]] + rest, d) == s
  {
    JoinCons(s[..i], rest, d);
    assert s == s[..i] + [d] + s[i + 1..];
  }

  /** There is one more piece than splits performed: `maxsplit` of them, or one per `d`
      when there are fewer (or when `maxsplit` is negative). */
  lemma {:induction false} SplitNCount(s: string, d: char, maxsplit: int)
    ensures |SplitN(s, d, maxsplit)| - 1
         == if 0 <= maxsplit < Count(s, d) then maxsplit else Count(s, d)
    decreases |s|
  {
    if maxsplit != 0 {
      match IndexOf(s, d)
      case None =>
        assert d !in multiset(s);
      case Some(i) =>
        var m := if maxsplit < 0 then maxsplit else maxsplit - 1;
        SplitNCount(s[i + 1..], d, m);
        assert SplitN(s, d, maxsplit) == [s[..i]] + SplitN(s[i + 1..], d, m);
        CountPastFirst(s, d, i);
    }
  }

  /** The occurrences of `d` in `s` are the first one, at `i`, and those after it. */
  lemma CountPastFirst(s: string, d: char, i: nat)
    requires i < |s| && s[i] == d && d !in s[..i]
    ensures Count(s, d) == Count(s[i + 1..], d) + 1
  {
    assert s == s[..i] + [d] + s[i + 1..];
    assert multiset(s) == multiset(s[..i]) + multiset{d} + multiset(s[i + 1..]);
    assert d !in multiset(s[..i]);
  }

  /** The last piece of `[x] + rest` is the last piece of `rest`. */
  lemma LastPiece(parts: seq<string>, x: string, rest: seq<string>, d: char)
    requires parts == [x] + rest && |rest| >= 1 && d !in rest[|rest| - 1]
    ensures d !in parts[|parts| - 1]
  {
    assert parts[|parts| - 1] == rest[|rest| - 1];
  }

  /** A split that stops short of `maxsplit` (or has no limit) has used up every `d`:
      its last piece is `d`-free too. */
  lemma {:induction false} SplitNLast(s: string, d: char, maxsplit: int)
    requires maxsplit < 0 || |SplitN(s, d, maxsplit)| - 1 < maxsplit
    ensures d !in SplitN(s, d, maxsplit)[|SplitN(s, d, maxsplit)| - 1]
    decreases |s|
  {
    if maxsplit != 0 {
      match IndexOf(s, d)
      case None =>
      case Some(i) =>
        var m := if maxsplit < 0 then maxsplit else maxsplit - 1;
        var rest := SplitN(s[i + 1..], d, m);
        var parts := SplitN(s, d, maxsplit);
        assert parts == [s[..i]] + rest;
        assert m < 0 || |rest| - 1 < m;
        SplitNLast(s[i + 1..], d, m);
        LastPiece(parts, s[..i], rest, d);
    }
  }

  /** Splitting at the first `d`: a prefix free of `d` comes off as the first piece. */
  lemma {:induction false} SplitNFirst(a: string, d: char, rest: string, maxsplit: int)
    requires d !in a && maxsplit != 0
    ensures SplitN(a + [d] + rest, d, maxsplit)
         == [a] + SplitN(rest, d, if maxsplit < 0 then maxsplit else maxsplit - 1)
  {
    var s := a + [d] + rest;
    assert s[|a|] == d;
    assert s[..|a|] == a;
    assert IndexOf(s, d) == Some(|a|);
    assert s[|a| + 1..] == rest;
  }

  /** `s.split(d)`: every piece, empty ones included, in order, with no arity check. */
  function Split(s: string, d: char): (r: seq<string>)
    ensures |r| == Count(s, d) + 1
    ensures Join(r, d) == s
    ensures forall k :: 0 <= k < |r| ==> d !in r[k]
  {
    SplitNCount(s, d, -1);
    SplitNJoin(s, d, -1);
    SplitAllFree(s, d);
    SplitN(s, d, -1)
  }

  /** With no limit on the number of splits, no piece holds the separator. */
  lemma SplitAllFree(s: string, d: char)
    ensures forall k :: 0 <= k < |SplitN(s, d, -1)| ==> d !in SplitN(s, d, -1)[k]
  {
    var r := SplitN(s, d, -1);
    SplitNFree(s, d, -1);
    SplitNLast(s, d, -1);
    forall k | 0 <= k < |r|
      ensures d !in r[k]
    {
      if k < |r| - 1 {
        assert d !in r[k];
      }
    }
  }

  /** The first of several joined pieces, followed by the separator, starts the result. */
  lemma JoinFirst(xs: seq<string>, d: char)
    requires |xs| >= 2
    ensures xs[0] + [d] <= Join(xs, d)
  {
    assert Join(xs, d) == xs[0] + [d] + Join(xs[1..], d);
    assert (xs[0] + [d] + Join(xs[1..], d))[..|xs[0]| + 1] == xs[0] + [d];
  }

  /** `SplitJoin` as an implication, for any list. */
  lemma JoinSplitsBack(xs: seq<string>, d: char)
    ensures |xs| >= 1 && (forall k :: 0 <= k < |xs| ==> d !in xs[k]) ==> SplitN(Join(xs, d), d, -1) == xs
  {
    if |xs| >= 1 && (forall k :: 0 <= k < |xs| ==> d !in xs[k]) {
      SplitJoin(xs, d);
    }
  }

  /** Splitting everywhere inverts `Join` on a non-empty list of `d`-free pieces. */
  lemma {:induction false} SplitJoin(xs: seq<string>, d: char)
    requires |xs| >= 1
    requires forall k :: 0 <= k < |xs| ==> d !in xs[k]
    ensures SplitN(Join(xs, d), d, -1) == xs
    decreases |xs|
  {
    if |xs| == 1 {
      assert IndexOf(xs[0], d).None?;
    } else {
      SplitNFirst(xs[0], d, Join(xs[1..], d), -1);
      SplitJoin(xs[1..], d);
      assert [xs[0]] + xs[1..] == xs;
    }
  }

  // ---------------------------------------------------------------------------
  // Decimal numerals
  // ---------------------------------------------------------------------------

  predicate IsDigit(c: char) {
    '0' <= c <= '9'
  }

  predicate AllDigits(s: string) {
    forall i :: 0 <= i < |s| ==> IsDigit(s[i])
  }

  /** No digit is whitespace, so a numeral is left alone by stripping. */
  lemma DigitsUnstripped(s: string)
    requires AllDigits(s)
    ensures Strip(s) == s
  {
    if s != [] {
      assert IsDigit(s[0]) && IsDigit(s[|s| - 1]);
      assert !IsSpace(s[0]) && !IsSpace(s[|s| - 1]);
      StripUnchanged(s);
    }
  }

  function DigitChar(v: nat): (c: char)
    requires v < 10
    ensures IsDigit(c)
  {
    (48 + v) as char
  }

  function DigitValue(c: char): nat
    requires IsDigit(c)
  {
    c as int - 48
  }

  function Pow10(k: nat): (p: nat)
    ensures p >= 1
  {
    if k == 0 then 1 else 10 * Pow10(k - 1)
  }

  /** `str(n)` for a natural number: decimal digits with no leading zero except for 0 itself. */
  function NatToString(n: nat): (r: string)
    ensures |r| >= 1 && AllDigits(r)
    ensures r[0] == '0' <==> n == 0
    ensures n == 0 ==> r == "0"
    decreases n
  {
    if n < 10 then [DigitChar(n)]
    else
      var p := NatToString(n / 10);
      p + [DigitChar(n % 10)]
  }

  /** The number a digit string denotes (leading zeros allowed). */
  function DecimalValue(s: string): nat
    requires AllDigits(s)
    decreases |s|
  {
    if s == [] then 0
    else DecimalValue(s[..|s| - 1]) * 10 + DigitValue(s[|s| - 1])
  }

  /** `NatToString` is read back exactly by `DecimalValue`. */
  lemma {:induction false} DecimalValueOfNatToString(n: nat)
    ensures DecimalValue(NatToString(n)) == n
    decreases n
  {
    if n >= 10 {
      DecimalValueOfNatToString(n / 10);
      var s := NatToString(n);
      assert s[..|s| - 1] == NatToString(n / 10);
    }
  }

  /** Different numbers have different numerals. */
  lemma NatToStringInjective(a: nat, b: nat)
    ensures NatToString(a) == NatToString(b) <==> a == b
  {
    if NatToString(a) == NatToString(b) {
      DecimalValueOfNatToString(a);
      DecimalValueOfNatToString(b);
    }
  }

  /** A numeral has at most `k` digits exactly when the number is below 10^k. */
  lemma {:induction false} NatToStringWidth(n: nat, k: nat)
    requires k >= 1
    ensures |NatToString(n)| <= k <==> n < Pow10(k)
    decreases n
  {
    if n >= 10 {
      if k == 1 {
        assert Pow10(1) == 10;
      } else {
        NatToStringWidth(n / 10, k - 1);
        assert n / 10 < Pow10(k - 1) <==> n < 10 * Pow10(k - 1);
      }
    } else {
      assert Pow10(k) == 10 * Pow10(k - 1);
    }
  }

  function Repeat(c: char, n: nat): (r: string)
    ensures |r| == n && forall i :: 0 <= i < n ==> r[i] == c
  {
    if n == 0 then [] else [c] + Repeat(c, n - 1)
  }

  /** `s.zfill(width)` for an unsigned numeral: zeros prepended up to `width` characters. */
  function ZFill(s: string, width: nat): (r: string)
    requires AllDigits(s)
    ensures |r| == if |s| >= width then |s| else width
    ensures r[|r| - |s|..] == s
    ensures forall i :: 0 <= i < |r| - |s| ==> r[i] == '0'
  {
    if |s| >= width then s else Repeat('0', width - |s|) + s
  }

  /** Stripping the zeros of a numeral padded with zeros gives back the numeral when it
      does not start with a zero, and nothing when it is all zeros. */
  lemma StripZerosPadded(z: string, s: string)
    requires |s| <= |z| && z[|z| - |s|..] == s
    requires forall i :: 0 <= i < |z| - |s| ==> z[i] == '0'
    ensures s != [] && s[0] != '0' ==> StripZeros(z) == s
    ensures (forall i :: 0 <= i < |s| ==> s[i] == '0') ==> StripZeros(z) == []
  {
    var r := StripZeros(z);
    if s != [] && s[0] != '0' {
      assert z[|z| - |s|] == s[0];
      assert |r| == |s|;
    } else if forall i :: 0 <= i < |s| ==> s[i] == '0' {
      assert forall i :: 0 <= i < |z| ==> z[i] == '0' by {
        forall i | |z| - |s| <= i < |z| ensures z[i] == '0' {
          assert z[i] == z[|z| - |s|..][i - (|z| - |s|)];
        }
      }
      StripZerosOfZeros(z);
    }
  }

  /** A string of zeros strips to nothing. */
  lemma {:induction false} StripZerosOfZeros(z: string)
    requires forall i :: 0 <= i < |z| ==> z[i] == '0'
    ensures StripZeros(z) == []
    decreases |z|
  {
    if z != [] {
      assert forall i :: 0 <= i < |z| - 1 ==> z[1..][i] == z[i + 1];
      StripZerosOfZeros(z[1..]);
    }
  }

  /** `s.lstrip('0')`: leading zeros removed. */
  function StripZeros(s: string): (r: string)
    ensures |r| <= |s| && r == s[|s| - |r|..]
    ensures forall i :: 0 <= i < |s| - |r| ==> s[i] == '0'
    ensures r == [] || r[0] != '0'
    decreases |s|
  {
    if s != [] && s[0] == '0' then
      var r := StripZeros(s[1..]);
      assert s[1..][|s| - 1 - |r|..] == s[|s| - |r|..];
      assert forall i :: 1 <= i < |s| - |r| ==> s[i] == s[1..][i - 1];
      r
    else
      s
  }
}
