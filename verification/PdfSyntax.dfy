/**
 Bytes, decimal numbers and the few tokens a PDF reader needs. The parsers take
 what is left of the file and return what they read with what is left after it.
 */
module PdfSyntax {
  import opened Prelude

  newtype byte = x: int | 0 <= x < 256
  type Bytes = seq<byte>

  /** The bytes of an ASCII literal. */
  function Ascii(s: string): (b: Bytes)
    ensures |b| == |s|
  {
    seq(|s|, i requires 0 <= i < |s| => (s[i] as int % 256) as byte)
  }

  // ----- decimal numbers ------------------------------------------------------

  predicate IsDigit(b: byte) {
    48 <= b <= 57
  }

  predicate AllDigits(b: Bytes) {
    forall i :: 0 <= i < |b| ==> IsDigit(b[i])
  }

  function Dec(n: nat): (b: Bytes)
    ensures |b| > 0 && AllDigits(b)
  {
    if n < 10 then [(48 + n) as byte] else Dec(n / 10) + [(48 + n % 10) as byte]
  }

  function Value(b: Bytes): nat
    requires AllDigits(b)
  {
    if b == [] then 0 else 10 * Value(b[..|b| - 1]) + (b[|b| - 1] - 48) as nat
  }

  lemma {:induction false} ValueOfDec(n: nat)
    ensures Value(Dec(n)) == n
  {
    if n >= 10 {
      ValueOfDec(n / 10);
      assert Dec(n)[..|Dec(n)| - 1] == Dec(n / 10);
    } else {
      assert Dec(n)[..0] == [];
    }
  }

  function Pow10(k: nat): nat {
    if k == 0 then 1 else 10 * Pow10(k - 1)
  }

  /** A number takes at most k digits exactly when it is below 10^k. */
  lemma {:induction false} DecLength(n: nat, k: nat)
    requires k > 0
    ensures |Dec(n)| <= k <==> n < Pow10(k)
  {
    if k == 1 {
      assert Pow10(1) == 10 * Pow10(0);
    } else if n < 10 {
      PowPositive(k - 1);
    } else {
      DecLength(n / 10, k - 1);
    }
  }

  lemma {:induction false} PowPositive(k: nat)
    ensures Pow10(k) >= 1
  {
    if k > 0 {
      PowPositive(k - 1);
    }
  }

  function Zeros(k: nat): (b: Bytes)
    ensures |b| == k && AllDigits(b)
  {
    seq(k, i => 48)
  }

  /** `{n:0{width}d}`: zeros in front up to the width, and no truncation past it. */
  function Padded(n: nat, width: nat): (b: Bytes)
    ensures AllDigits(b)
  {
    if |Dec(n)| >= width then Dec(n) else Zeros(width - |Dec(n)|) + Dec(n)
  }

  lemma {:induction false} ValueOfZeros(k: nat, b: Bytes)
    requires AllDigits(b)
    ensures AllDigits(Zeros(k) + b) && Value(Zeros(k) + b) == Value(b)
    decreases |b| + k
  {
    if b != [] {
      ValueOfZeros(k, b[..|b| - 1]);
      assert (Zeros(k) + b)[..k + |b| - 1] == Zeros(k) + b[..|b| - 1];
    } else if k > 0 {
      ValueOfZeros(k - 1, []);
      assert (Zeros(k) + b)[..k - 1] == Zeros(k - 1) + [];
    }
  }

  lemma PaddedIsNumber(n: nat, width: nat)
    requires width > 0
    ensures Value(Padded(n, width)) == n
    ensures |Padded(n, width)| == width <==> n < Pow10(width)
    ensures |Padded(n, width)| >= width
  {
    ValueOfDec(n);
    DecLength(n, width);
    if |Dec(n)| < width {
      ValueOfZeros(width - |Dec(n)|, Dec(n));
    }
  }

  // ----- tokens -----------------------------------------------------------------

  function Expect(b: Bytes, token: Bytes): Option<Bytes> {
    if token <= b then Some(b[|token|..]) else None
  }

  function LeadingDigits(b: Bytes): (k: nat)
    ensures k <= |b| && AllDigits(b[..k])
  {
    if b != [] && IsDigit(b[0]) then
      assert b[..1 + LeadingDigits(b[1..])] == [b[0]] + b[1..][..LeadingDigits(b[1..])];
      1 + LeadingDigits(b[1..])
    else 0
  }

  function ReadNumber(b: Bytes): Option<(nat, Bytes)> {
    var k := LeadingDigits(b);
    if k == 0 then None else Some((Value(b[..k]), b[k..]))
  }

  lemma Expected(token: Bytes, rest: Bytes)
    ensures Expect(token + rest, token) == Some(rest)
  {
  }

  lemma {:induction false} DigitsLead(digits: Bytes, rest: Bytes)
    requires AllDigits(digits) && (rest == [] || !IsDigit(rest[0]))
    ensures LeadingDigits(digits + rest) == |digits|
    decreases |digits|
  {
    if digits == [] {
      assert digits + rest == rest;
    } else {
      assert (digits + rest)[1..] == digits[1..] + rest;
      DigitsLead(digits[1..], rest);
    }
  }

  lemma {:induction false} NumberRead(n: nat, rest: Bytes)
    requires rest == [] || !IsDigit(rest[0])
    ensures ReadNumber(Dec(n) + rest) == Some((n, rest))
  {
    DigitsLead(Dec(n), rest);
    ValueOfDec(n);
    assert (Dec(n) + rest)[..|Dec(n)|] == Dec(n);
  }

  // ----- from the end of the file -------------------------------------------------

  /** What stands before the digits at the end. */
  function BeforeDigits(b: Bytes): (front: Bytes)
    ensures front <= b && AllDigits(b[|front|..])
  {
    if b != [] && IsDigit(b[|b| - 1]) then
      var front := BeforeDigits(b[..|b| - 1]);
      assert b[|front|..] == b[..|b| - 1][|front|..] + [b[|b| - 1]];
      front
    else b
  }

  /** What stands before a token the file ends with. */
  function Strip(b: Bytes, token: Bytes): Option<Bytes> {
    if |token| <= |b| && b[|b| - |token|..] == token then Some(b[..|b| - |token|]) else None
  }

  function ReadLastNumber(b: Bytes): Option<(nat, Bytes)> {
    var front := BeforeDigits(b);
    var digits := b[|front|..];
    if digits == [] then None else Some((Value(digits), front))
  }

  lemma Stripped(front: Bytes, token: Bytes)
    ensures Strip(front + token, token) == Some(front)
  {
    assert (front + token)[..|front|] == front && (front + token)[|front|..] == token;
  }

  lemma {:induction false} LastNumberRead(front: Bytes, n: nat)
    requires front == [] || !IsDigit(front[|front| - 1])
    ensures ReadLastNumber(front + Dec(n)) == Some((n, front))
  {
    DigitsTrail(front, Dec(n));
    ValueOfDec(n);
    assert (front + Dec(n))[|front|..] == Dec(n);
  }

  lemma {:induction false} DigitsTrail(front: Bytes, digits: Bytes)
    requires AllDigits(digits) && (front == [] || !IsDigit(front[|front| - 1]))
    ensures BeforeDigits(front + digits) == front
    decreases |digits|
  {
    if digits == [] {
      assert front + digits == front;
    } else {
      assert (front + digits)[..|front + digits| - 1] == front + digits[..|digits| - 1];
      DigitsTrail(front, digits[..|digits| - 1]);
    }
  }

  // ----- concatenation ---------------------------------------------------------------

  lemma Assoc(a: Bytes, b: Bytes, c: Bytes)
    ensures (a + b) + c == a + (b + c)
  {
  }

  /** What a file that begins with `early + part` holds right after `early`. */
  lemma Between(b: Bytes, early: Bytes, part: Bytes)
    requires early + part <= b
    ensures b[|early|..|early + part|] == part
  {
    assert b[|early|..|early + part|] == b[..|early + part|][|early|..];
  }

  lemma PrefixOfPrefix(a: Bytes, b: Bytes, c: Bytes)
    requires a <= b <= c
    ensures a <= c
  {
    assert a == b[..|a|] == c[..|a|];
  }

  function Flat(parts: seq<Bytes>): Bytes {
    if parts == [] then [] else Flat(parts[..|parts| - 1]) + parts[|parts| - 1]
  }

  lemma FlatSnoc(parts: seq<Bytes>, k: nat)
    requires k < |parts|
    ensures Flat(parts[..k + 1]) == Flat(parts[..k]) + parts[k]
  {
    assert parts[..k + 1][..k] == parts[..k];
  }

  lemma {:induction false} FlatCons(part: Bytes, parts: seq<Bytes>)
    ensures Flat([part] + parts) == part + Flat(parts)
    decreases |parts|
  {
    var all := [part] + parts;
    if parts == [] {
      assert all[..|all| - 1] == [];
    } else {
      var front, last := parts[..|parts| - 1], parts[|parts| - 1];
      assert all[..|all| - 1] == [part] + front;
      FlatCons(part, front);
      Assoc(part, Flat(front), last);
    }
  }

  /** The first k parts laid out one after another behind a head. */
  function Laid(head: Bytes, parts: seq<Bytes>, k: nat): Bytes
    requires k <= |parts|
  {
    if k == 0 then head else Laid(head, parts, k - 1) + parts[k - 1]
  }

  lemma {:induction false} LaidIsPrefix(head: Bytes, parts: seq<Bytes>, k: nat, n: nat)
    requires k <= n <= |parts|
    ensures Laid(head, parts, k) <= Laid(head, parts, n)
    decreases n - k
  {
    if k < n {
      LaidIsPrefix(head, parts, k, n - 1);
    }
  }

  /** Each part lies between the length laid out before it and the length after it. */
  lemma LaidSlice(head: Bytes, parts: seq<Bytes>, b: Bytes, k: nat)
    requires k < |parts| && Laid(head, parts, |parts|) <= b
    ensures |Laid(head, parts, k)| <= |Laid(head, parts, k + 1)| <= |b|
    ensures b[|Laid(head, parts, k)|..|Laid(head, parts, k + 1)|] == parts[k]
  {
    LaidIsPrefix(head, parts, k + 1, |parts|);
    PrefixOfPrefix(Laid(head, parts, k + 1), Laid(head, parts, |parts|), b);
    Between(b, Laid(head, parts, k), parts[k]);
  }

  lemma Regroup(a: Bytes, b: Bytes, c: Bytes, d: Bytes, e: Bytes)
    ensures a + b + c + d + e == a + (b + (c + (d + e)))
  {
  }

  lemma Halves(front: Bytes, rest: Bytes)
    ensures (front + rest)[..|front|] == front && (front + rest)[|front|..] == rest
  {
  }

  /** A head followed by pairs, one from each list. */
  function Paired<T>(head: seq<T>, first: seq<T>, second: seq<T>, k: nat): seq<T>
    requires k <= |first| && k <= |second|
  {
    if k == 0 then head else Paired(head, first, second, k - 1) + [first[k - 1]] + [second[k - 1]]
  }

  lemma {:induction false} PairedAt<T>(head: seq<T>, first: seq<T>, second: seq<T>, k: nat)
    requires k <= |first| && k <= |second|
    ensures var all := Paired(head, first, second, k);
      && |all| == |head| + 2 * k
      && all[..|head|] == head
      && forall i :: 0 <= i < k ==> all[|head| + 2 * i] == first[i] && all[|head| + 2 * i + 1] == second[i]
  {
    if k > 0 {
      PairedAt(head, first, second, k - 1);
    }
  }

  lemma PairedAtOne<T>(head: seq<T>, first: seq<T>, second: seq<T>, i: nat)
    requires |head| == 3 && |first| == |second| && i < |first|
    ensures |Paired(head, first, second, |first|)| == 3 + 2 * |first|
    ensures Paired(head, first, second, |first|)[..3] == head
    ensures Paired(head, first, second, |first|)[3 + 2 * i] == first[i]
    ensures Paired(head, first, second, |first|)[4 + 2 * i] == second[i]
  {
    PairedAt(head, first, second, |first|);
  }
}
