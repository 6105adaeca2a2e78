/** Number printing in student-distrib/lib.c: digits are produced backwards into a buffer and
    the string is reversed in place. */
module Numbers {
  import opened Machine
  import opened Buffers

  const ZERO: byte := 48
  const MINUS: byte := 45

  /** The lookup table "0123456789ABC...". */
  function Digit(d: nat): byte
    requires d < 36
  {
    if d < 10 then 48 + d else 55 + d
  }

  function DigitValue(c: byte): int {
    if c < 58 then c - 48 else c - 55
  }

  predicate Radix(r: nat) {
    2 <= r <= 36
  }

  function Quot(v: nat, r: nat): (q: nat)
    requires Radix(r)
  {
    v / r
  }

  function Rem(v: nat, r: nat): (m: nat)
    requires Radix(r)
  {
    v % r
  }

  lemma MulLe(a: nat, b: nat, c: nat)
    ensures a <= b ==> a * c <= b * c
  {
  }

  lemma QuotRem(v: nat, r: nat)
    requires Radix(r)
    ensures v == Quot(v, r) * r + Rem(v, r) && Rem(v, r) < r
    ensures Quot(v, r) == 0 <==> v < r
    ensures v > 0 ==> Quot(v, r) < v
    ensures v < r ==> Rem(v, r) == v
  {
    var q, m := Quot(v, r), Rem(v, r);
    assert v == q * r + m && m < r;
    hide Quot, Rem;
    MulLe(2, r, q);
    MulLe(1, q, r);
    assert 2 * q <= r * q == q * r;
  }

  function Numeral(v: nat, r: nat): (s: seq<byte>)
    requires Radix(r)
    ensures |s| > 0
    decreases v
  {
    QuotRem(v, r);
    if v < r then [Digit(v)] else Numeral(Quot(v, r), r) + [Digit(Rem(v, r))]
  }

  /** The value of a digit string. */
  function Parse(s: seq<byte>, r: nat): int {
    if s == [] then 0 else Parse(s[..|s| - 1], r) * r + DigitValue(s[|s| - 1])
  }

  lemma {:induction false} ParseNumeral(v: nat, r: nat)
    requires Radix(r)
    ensures Parse(Numeral(v, r), r) == v
    ensures Numeral(v, r)[0] == ZERO ==> v == 0 && |Numeral(v, r)| == 1
    ensures NulFree(Numeral(v, r))
    decreases v
  {
    hide Quot, Rem;
    var s := Numeral(v, r);
    QuotRem(v, r);
    if v < r {
      assert s[..0] == [];
    } else {
      var front := Numeral(Quot(v, r), r);
      ParseNumeral(Quot(v, r), r);
      assert s[..|s| - 1] == front;
    }
  }

  /** One of the first `r` bytes of "0123456789ABCDEFGHIJKLMNOPQRSTUVWXYZ". */
  predicate InRadix(c: byte, r: nat) {
    (48 <= c <= 57 && c - 48 < r) || (65 <= c <= 90 && c - 55 < r)
  }

  predicate AllInRadix(s: seq<byte>, r: nat) {
    forall i :: 0 <= i < |s| ==> InRadix(s[i], r)
  }

  /** No two digits have the same value. */
  lemma DigitsApart(c: byte, d: byte)
    requires InRadix(c, 36) && InRadix(d, 36) && DigitValue(c) == DigitValue(d)
    ensures c == d
  {
  }

  lemma DigitOf(c: byte, r: nat)
    requires Radix(r) && InRadix(c, r)
    ensures 0 <= DigitValue(c) < r && Digit(DigitValue(c)) == c && (DigitValue(c) == 0 <==> c == 48)
  {
  }

  lemma {:induction false} NumeralInRadix(v: nat, r: nat)
    requires Radix(r)
    ensures AllInRadix(Numeral(v, r), r)
    decreases v
  {
    hide Quot, Rem;
    QuotRem(v, r);
    if v >= r { NumeralInRadix(Quot(v, r), r); }
  }

  lemma {:induction false} ParseAtLeast(s: seq<byte>, r: nat)
    requires Radix(r) && AllInRadix(s, r)
    ensures Parse(s, r) >= 0 && (s != [] && s[0] != 48 ==> Parse(s, r) > 0)
    decreases |s|
  {
    if s != [] {
      var front, last := s[..|s| - 1], s[|s| - 1];
      ParseAtLeast(front, r);
      DigitOf(last, r);
      MulLe(1, Parse(front, r), r);
    }
  }

  lemma DivisionIs(v: nat, r: nat, q: nat, m: nat)
    requires Radix(r) && v == q * r + m && m < r
    ensures Quot(v, r) == q && Rem(v, r) == m
  {
    hide Quot, Rem;
    QuotRem(v, r);
    var q', m' := Quot(v, r), Rem(v, r);
    MulLe(q + 1, q', r);
    MulLe(q' + 1, q, r);
    assert (q + 1) * r == q * r + r && (q' + 1) * r == q' * r + r;
  }

  /** The numeral is the only string of digits without a leading zero that has its value. */
  lemma {:induction false} NumeralUnique(s: seq<byte>, v: nat, r: nat)
    requires Radix(r) && s != [] && AllInRadix(s, r) && (s[0] == 48 ==> |s| == 1) && Parse(s, r) == v
    ensures s == Numeral(v, r)
    decreases |s|
  {
    hide Quot, Rem;
    var front, last := s[..|s| - 1], s[|s| - 1];
    DigitOf(last, r);
    ParseAtLeast(front, r);
    DivisionIs(v, r, Parse(front, r), DigitValue(last));
    QuotRem(v, r);
    assert s == front + [last];
    if |s| > 1 {
      NumeralUnique(front, Parse(front, r), r);
    } else {
      assert front == [];
    }
  }

  function Pow(b: nat, n: nat): nat {
    if n == 0 then 1 else b * Pow(b, n - 1)
  }

  lemma QuotBelow(v: nat, r: nat, b: nat, p: nat)
    requires Radix(r) && b <= r && v < b * p
    ensures Quot(v, r) < p
  {
    hide Quot, Rem;
    QuotRem(v, r);
    var q := Quot(v, r);
    MulLe(p, q, r);
    MulLe(b, r, p);
  }

  /** A number below `b^n` has at most `n` digits in any radix from `b` up. */
  lemma {:induction false} NumeralShort(v: nat, r: nat, b: nat, n: nat)
    requires Radix(r) && 2 <= b <= r && n > 0 && v < Pow(b, n)
    ensures |Numeral(v, r)| <= n
    decreases v
  {
    hide Quot, Rem;
    QuotRem(v, r);
    if v >= r {
      QuotBelow(v, r, b, Pow(b, n - 1));
      NumeralShort(Quot(v, r), r, b, n - 1);
    }
  }

  lemma Powers()
    ensures Pow(2, 32) == 0x1_0000_0000 && Pow(16, 8) == 0x1_0000_0000
  {
    assert Pow(2, 8) == 256;
    assert Pow(2, 16) == 256 * Pow(2, 8);
    assert Pow(2, 24) == 256 * Pow(2, 16);
    assert Pow(2, 32) == 256 * Pow(2, 24);
    assert Pow(16, 4) == 65536;
    assert Pow(16, 8) == 65536 * Pow(16, 4);
  }

  // ------------------------------------------------------------ reversing

  function Reverse(s: seq<byte>): (r: seq<byte>)
    ensures |r| == |s|
    ensures forall i :: 0 <= i < |s| ==> r[i] == s[|s| - 1 - i]
  {
    seq<byte>(|s|, i requires 0 <= i < |s| => s[|s| - 1 - i])
  }

  lemma ReverseSnoc(s: seq<byte>, c: byte)
    ensures Reverse(s + [c]) == [c] + Reverse(s)
  {
  }

  lemma ReverseNil(s: seq<byte>)
    ensures s + Reverse([]) == s
  {
  }

  lemma ReverseTwice(s: seq<byte>)
    ensures Reverse(Reverse(s)) == s
  {
  }

  lemma ReverseNulFree(s: seq<byte>)
    requires NulFree(s)
    ensures NulFree(Reverse(s))
  {
  }

  lemma OneMore(front: seq<byte>, d: byte, out: seq<byte>)
    ensures front + [d] + Reverse(out) == front + Reverse(out + [d])
    ensures [d] + Reverse(out) == Reverse(out + [d])
  {
    ReverseSnoc(out, d);
  }

  method Strlen(buf: array<byte>, at: nat, ghost n: nat) returns (len: nat)
    requires at + n < buf.Length && buf[at + n] == NUL && NulFree(buf[at..at + n])
    ensures len == n
  {
    len := 0;
    assert forall i :: at <= i < at + n ==> buf[i] == buf[at..at + n][i - at];
    while buf[at + len] != NUL
      invariant len <= n
      decreases n - len
    {
      len := len + 1;
    }
  }

  /** Where byte `i` came from once the outer `beg` pairs of `n` bytes at `at` are exchanged. */
  function Mirror(at: nat, n: nat, beg: nat, i: int): int {
    if at <= i < at + beg || at + n - beg <= i < at + n then 2 * at + n - 1 - i else i
  }

  ghost predicate Swapped(s: seq<byte>, before: seq<byte>, at: nat, n: nat, beg: nat) {
    && |s| == |before| && at + n <= |s| && 2 * beg <= n
    && forall i :: 0 <= i < |s| ==> s[i] == before[Mirror(at, n, beg, i)]
  }

  lemma SwappedNone(s: seq<byte>, at: nat, n: nat)
    requires at + n <= |s|
    ensures Swapped(s, s, at, n, 0)
  {
  }

  lemma SwapStep(s: seq<byte>, before: seq<byte>, at: nat, n: nat, beg: nat)
    requires Swapped(s, before, at, n, beg) && 2 * beg + 1 < n
    ensures var p, q := at + beg, at + n - 1 - beg;
      Swapped(s[q := s[p]][p := s[q]], before, at, n, beg + 1)
  {
    var p, q := at + beg, at + n - 1 - beg;
    var t := s[q := s[p]][p := s[q]];
    assert s[p] == before[p] && s[q] == before[q];
    forall i | 0 <= i < |t| ensures t[i] == before[Mirror(at, n, beg + 1, i)] {
      assert i != p && i != q ==> t[i] == s[i];
    }
  }

  lemma SwappedAll(s: seq<byte>, before: seq<byte>, at: nat, n: nat, beg: nat)
    requires Swapped(s, before, at, n, beg) && n <= 2 * beg + 1
    ensures s[at..at + n] == Reverse(before[at..at + n])
    ensures forall i :: 0 <= i < at || at + n <= i < |s| ==> s[i] == before[i]
  {
    var window, was := s[at..at + n], before[at..at + n];
    forall i | 0 <= i < n ensures window[i] == Reverse(was)[i] {
      assert window[i] == s[at + i] == before[Mirror(at, n, beg, at + i)];
    }
  }

  method Strrev(buf: array<byte>, at: nat, ghost n: nat)
    requires at + n < buf.Length && buf[at + n] == NUL && NulFree(buf[at..at + n])
    modifies buf
    ensures buf[at..at + n] == Reverse(old(buf[at..at + n]))
    ensures forall i :: 0 <= i < at || at + n <= i < buf.Length ==> buf[i] == old(buf[i])
  {
    hide Swapped, Reverse;
    ghost var before := buf[..];
    SwappedNone(before, at, n);
    var len := Strlen(buf, at, n);
    var beg: int, end: int := 0, len;
    end := end - 1;
    while beg < end
      invariant 0 <= beg && beg + end == n - 1 && beg <= end + 1
      invariant Swapped(buf[..], before, at, n, beg)
      decreases end - beg
    {
      ghost var s := buf[..];
      SwapStep(s, before, at, n, beg);
      var tmp := buf[at + end];
      buf[at + end] := buf[at + beg];
      buf[at + beg] := tmp;
      assert buf[..] == s[at + end := s[at + beg]][at + beg := s[at + end]];
      beg, end := beg + 1, end - 1;
    }
    SwappedAll(buf[..], before, at, n, beg);
    assert buf[..][at..at + n] == buf[at..at + n] && before[at..at + n] == old(buf[at..at + n]);
  }

  // ------------------------------------------------------------ itoa

  /** The digit loop: least significant digit first. */
  method DigitsBackwards(value: uint32, buf: array<byte>, at: nat, radix: nat) returns (n: nat)
    requires Radix(radix) && value > 0 && at + |Numeral(value, radix)| <= buf.Length
    modifies buf
    ensures n == |Numeral(value, radix)| && Reverse(buf[at..at + n]) == Numeral(value, radix)
    ensures forall i :: 0 <= i < at || at + n <= i < buf.Length ==> buf[i] == old(buf[i])
  {
    hide Numeral, Quot, Rem, Reverse;
    ghost var goal := Numeral(value, radix);
    var next, newval := at, value;
    ghost var out: seq<byte> := [];
    ReverseNil(goal);
    while newval > 0
      invariant 0 <= newval && at <= next == at + |out| && |out| <= |goal|
      invariant newval > 0 ==> Numeral(newval, radix) + Reverse(out) == goal
      invariant newval == 0 ==> Reverse(out) == goal
      invariant buf[at..next] == out
      invariant forall i :: 0 <= i < at || next <= i < buf.Length ==> buf[i] == old(buf[i])
      decreases newval
    {
      QuotRem(newval, radix);
      NumeralStep(newval, radix);
      ghost var d := Digit(Rem(newval, radix));
      OneMore(Numeral(Quot(newval, radix), radix), d, out);
      buf[next] := Digit(Rem(newval, radix));
      assert buf[at..next + 1] == out + [d];
      out := out + [d];
      next, newval := next + 1, Quot(newval, radix);
    }
    n := next - at;
  }

  lemma {:induction false} Fits32(value: uint32, radix: nat)
    requires Radix(radix)
    ensures |Numeral(value, radix)| <= 32
  {
    hide Numeral, Pow;
    Powers();
    NumeralShort(value, radix, 2, 32);
  }

  lemma NumeralOfZero(radix: nat)
    requires Radix(radix)
    ensures Numeral(0, radix) == [ZERO]
  {
  }

  lemma ReversedNumeral(out: seq<byte>, value: nat, radix: nat)
    requires Radix(radix) && Reverse(out) == Numeral(value, radix)
    ensures NulFree(out)
  {
    hide Numeral, Reverse;
    ParseNumeral(value, radix);
    ReverseTwice(out);
    ReverseNulFree(Numeral(value, radix));
  }

  /** `itoa(value, buf + at, radix)`. */
  method Itoa(value: uint32, buf: array<byte>, at: nat, radix: nat)
    requires 2 <= radix <= 36 && at + 33 <= buf.Length
    modifies buf
    ensures var s := Numeral(value, radix);
      && |s| <= 32 && buf[at..at + |s|] == s && buf[at + |s|] == NUL
      && AllInRadix(s, radix) && Parse(s, radix) == value && (s[0] == 48 ==> |s| == 1)
      && forall i :: 0 <= i < at || at + |s| < i < buf.Length ==> buf[i] == old(buf[i])
  {
    hide Numeral, Reverse, NulFree, Parse;
    Fits32(value, radix);
    NumeralInRadix(value, radix);
    ParseNumeral(value, radix);
    if value == 0 {
      NumeralOfZero(radix);
      buf[at] := ZERO;
      buf[at + 1] := NUL;
      return;
    }
    var n := DigitsBackwards(value, buf, at, radix);
    ghost var out := buf[at..at + n];
    ReversedNumeral(out, value, radix);
    buf[at + n] := NUL;
    assert buf[at..at + n] == out;
    Strrev(buf, at, n);
  }

  lemma NumeralStep(v: nat, r: nat)
    requires Radix(r)
    ensures Rem(v, r) < r
    ensures Numeral(v, r) == if v < r then [Digit(Rem(v, r))] else Numeral(Quot(v, r), r) + [Digit(Rem(v, r))]
  {
    QuotRem(v, r);
  }

  // ------------------------------------------------------------ printf's number formats

  /** `%#x`: the digits go to the second half of the buffer, zeros in front of them. */
  method HexAlternate(value: uint32) returns (text: seq<byte>)
    ensures |text| == 8 && Parse(text, 16) == value && AllInRadix(text, 16)
  {
    hide Numeral, CString, Parse, Pow, NulFree;
    var conv := new byte[64];
    Itoa(value, conv, 8, 16);
    ghost var s := Numeral(value, 16);
    Powers();
    NumeralShort(value, 16, 16, 8);
    ParseNumeral(value, 16);
    var start := Strlen(conv, 8, |s|);
    FillZeros(conv, start, s);
    ZerosThenDigits(conv[..], start, s);
    text := CString(conv[..], start);
  }

  /** Zeros from `start` to the middle of the buffer, where `s` stands. */
  method FillZeros(conv: array<byte>, start: nat, ghost s: seq<byte>)
    requires start <= 8 && 8 + |s| < conv.Length && conv[8..8 + |s|] == s && conv[8 + |s|] == NUL
    modifies conv
    ensures forall k :: start <= k < 8 ==> conv[k] == ZERO
    ensures conv[8..8 + |s|] == s && conv[8 + |s|] == NUL
  {
    var i := start;
    while i < 8
      invariant start <= i <= 8
      invariant forall k :: start <= k < i ==> conv[k] == ZERO
      invariant forall k :: 8 <= k < conv.Length ==> conv[k] == old(conv[k])
    {
      conv[i] := ZERO;
      i := i + 1;
    }
    assert conv[8..8 + |s|] == old(conv[8..8 + |s|]);
  }

  lemma ZerosThenDigits(data: seq<byte>, start: nat, s: seq<byte>)
    requires start == |s| <= 8 && 8 + |s| < |data| && data[8..8 + |s|] == s && data[8 + |s|] == NUL
    requires NulFree(s) && forall k :: start <= k < 8 ==> data[k] == ZERO
    ensures |CString(data, start)| == 8 && Parse(CString(data, start), 16) == Parse(s, 16)
    ensures AllInRadix(s, 16) ==> AllInRadix(CString(data, start), 16)
  {
    hide CString, Parse;
    var zeros: seq<byte> := seq(8 - start, _ => ZERO);
    assert data[start..8] == zeros;
    assert data[start..8 + |s|] == data[start..8] + data[8..8 + |s|];
    CStringIs(data, start, 8 + |s|);
    assert CString(data, start) == zeros + s;
    LeadingZeros(8 - start, s, 16);
  }

  lemma {:induction false} LeadingZeros(n: nat, s: seq<byte>, r: nat)
    ensures Parse(seq(n, _ => ZERO) + s, r) == Parse(s, r)
    decreases |s|, n
  {
    var z: seq<byte> := seq(n, _ => ZERO);
    if s != [] {
      assert (z + s)[..n + |s| - 1] == z + s[..|s| - 1];
      LeadingZeros(n, s[..|s| - 1], r);
    } else if n > 0 {
      assert z + s == z && z[..n - 1] == seq(n - 1, _ => ZERO) + [];
      LeadingZeros(n - 1, [], r);
    }
  }

  type int32 = x: int | -0x8000_0000 <= x < 0x8000_0000

  function ParseSigned(s: seq<byte>): int {
    if s != [] && s[0] == MINUS then -Parse(s[1..], 10) else Parse(s, 10)
  }

  /** `%d`. Negation is done in 32 bits, so the least value is its own negation. */
  method Decimal(value: int32) returns (text: seq<byte>)
    ensures ParseSigned(text) == value
    ensures text == if value < 0 then [MINUS] + Numeral(0 - value, 10) else Numeral(value, 10)
    ensures value >= 0 ==> forall i :: 0 <= i < |text| ==> 48 <= text[i] <= 57
    ensures value < 0 ==> |text| > 0 && text[0] == 45 && forall i :: 1 <= i < |text| ==> 48 <= text[i] <= 57
  {
    hide Numeral, CString;
    var conv := new byte[36];
    if value < 0 {
      conv[0] := MINUS;
      var magnitude := (0x1_0000_0000 - (value + 0x1_0000_0000)) % 0x1_0000_0000;
      assert magnitude == 0 - value;
      Itoa(magnitude, conv, 1, 10);
      ghost var s := Numeral(magnitude, 10);
      ParseNumeral(magnitude, 10);
      assert conv[..][0..1 + |s|] == [MINUS] + s;
      CStringIs(conv[..], 0, 1 + |s|);
      assert ([MINUS] + s)[1..] == s;
    } else {
      Itoa(value, conv, 0, 10);
      ghost var s := Numeral(value, 10);
      ParseNumeral(value, 10);
      DigitsOnly(value, 10);
      assert conv[..][0..|s|] == s;
      CStringIs(conv[..], 0, |s|);
    }
    text := CString(conv[..], 0);
  }

  lemma {:induction false} DigitsOnly(v: nat, r: nat)
    requires Radix(r)
    ensures forall i :: 0 <= i < |Numeral(v, r)| ==> Numeral(v, r)[i] >= ZERO
    decreases v
  {
    QuotRem(v, r);
    if v >= r { DigitsOnly(Quot(v, r), r); }
  }
}
