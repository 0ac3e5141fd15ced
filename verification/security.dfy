/**
 * The puzzle cipher. Two strings determine a multiplier, the multiplier a 95-entry
 * substitution table over printable ASCII (32..126), and `encrypt`/`decrypt` look each
 * character up in that table. The integer arithmetic is the source's 32-bit signed
 * arithmetic: `as i32` keeps the low 32 bits and `%` truncates toward zero.
 */
module Security {
  import opened Text

  const I32_MAX: int := 0x7FFF_FFFF
  const I32_MOD: int := 0x1_0000_0000

  /** `x as i32`: the low 32 bits read as a two's-complement number. */
  function I32(x: int): (r: int)
    ensures -I32_MAX - 1 <= r <= I32_MAX
    ensures (x - r) % I32_MOD == 0
    ensures -I32_MAX - 1 <= x <= I32_MAX ==> r == x
  {
    var y := x % I32_MOD;
    if y > I32_MAX then y - I32_MOD else y
  }

  /** Rust's `%`: the remainder has the sign of the dividend. */
  function TRem(a: int, b: int): (r: int)
    requires b > 0
    ensures -b < r < b
    ensures a >= 0 ==> r == a % b
    ensures a <= 0 ==> r <= 0
  {
    if a >= 0 then a % b else -((-a) % b)
  }

  // ---------------------------------------------------------------------------
  // The multiplier
  // ---------------------------------------------------------------------------

  /**
   * The multiplier before adjustment: `(len(s1) + s1[len(s2) % len(s1)]) * len(s2)` over
   * UTF-8 bytes, cast to `i32`. The remainder divides by `len(s1)`, so an empty first
   * string is a division by zero (a panic); strings of 2^31 bytes or more are not modelled.
   */
  function BaseMult(s1: string, s2: string): (m: int)
    requires 0 < |Bytes(s1)| <= I32_MAX && |Bytes(s2)| <= I32_MAX
    ensures -I32_MAX - 1 <= m <= I32_MAX
  {
    var b1 := Bytes(s1);
    var n1 := |b1| + b1[|Bytes(s2)| % |b1|];
    I32(n1 * |Bytes(s2)|)
  }

  /**
   * The adjustment as written: +1 for multiples of 5, +2 for multiples of 19 that are 4
   * mod 5, +1 for other multiples of 19, no change otherwise (additions wrap as `i32`).
   */
  function AdjustAsWritten(m: int): (r: int)
    ensures -I32_MAX - 1 <= m <= I32_MAX - 2 ==> m <= r <= m + 2
    ensures TRem(m, 5) != 0 && TRem(m, 19) != 0 ==> r == m
  {
    var r5 := TRem(m, 5);
    var r19 := TRem(m, 19);
    if r5 == 0 then I32(m + 1)
    else if r5 == 4 && r19 == 0 then I32(m + 2)
    else if r19 == 0 then I32(m + 1)
    else m
  }

  /**
   * The adjustment with the case the first arm misses: a multiple of 5 that is 18 mod 19
   * becomes a multiple of 19 after +1, so it takes +2.
   */
  function Adjust(m: int): (r: int)
    ensures -I32_MAX - 1 <= m <= I32_MAX - 2 ==> m <= r <= m + 2
    ensures TRem(m, 5) != 0 && TRem(m, 19) != 0 ==> r == m
  {
    var r5 := TRem(m, 5);
    var r19 := TRem(m, 19);
    if r5 == 0 && r19 == 18 then I32(m + 2)
    else if r5 == 0 then I32(m + 1)
    else if r5 == 4 && r19 == 0 then I32(m + 2)
    else if r19 == 0 then I32(m + 1)
    else m
  }

  /** Shares no factor with 95 = 5 · 19. */
  predicate Coprime95(m: int) {
    m % 5 != 0 && m % 19 != 0
  }

  /**
   * For a non-negative multiplier that does not overflow, every arm of the adjustment as
   * written except the first yields a number coprime to 95; the first can yield a multiple
   * of 19.
   */
  lemma AdjustAsWrittenArms(m: int)
    requires 0 <= m <= I32_MAX - 2
    ensures m % 5 != 0 ==> Coprime95(AdjustAsWritten(m))
    ensures m % 5 == 0 ==> (Coprime95(AdjustAsWritten(m)) <==> m % 19 != 18)
  {
    if m % 5 == 0 {
      FirstArmAsWritten(m);
    } else {
      OtherArmsAsWritten(m);
    }
  }

  lemma FirstArmAsWritten(m: int)
    requires 0 <= m <= I32_MAX - 2 && m % 5 == 0
    ensures AdjustAsWritten(m) == m + 1
    ensures Coprime95(m + 1) <==> m % 19 != 18
  {
    Shift5(m, 1);
    if m % 19 == 18 {
      assert m + 1 == 19 * (m / 19 + 1);
    } else {
      Shift19(m, 1);
    }
  }

  lemma OtherArmsAsWritten(m: int)
    requires 0 <= m <= I32_MAX - 2 && m % 5 != 0
    ensures Coprime95(AdjustAsWritten(m))
  {
    if m % 5 == 4 && m % 19 == 0 {
      assert AdjustAsWritten(m) == m + 2;
      Shift19(m, 2);
      assert m + 2 == 5 * (m / 5 + 1) + 1;
    } else if m % 19 == 0 {
      assert AdjustAsWritten(m) == m + 1;
      Shift5(m, 1);
      Shift19(m, 1);
    }
  }

  /** The first arm fails on 75: 76 = 4 · 19. */
  lemma AdjustAsWrittenMisses()
    ensures AdjustAsWritten(75) == 76 && !Coprime95(76)
  {
  }

  /** Adding `k` to `m` moves its remainder modulo 5 by `k` as long as it does not wrap. */
  lemma Shift5(m: int, k: int)
    requires 0 <= k && m % 5 + k < 5
    ensures (m + k) % 5 == m % 5 + k
  {
    assert m + k == 5 * (m / 5) + (m % 5 + k);
  }

  /** Adding `k` to `m` moves its remainder modulo 19 by `k` as long as it does not wrap. */
  lemma Shift19(m: int, k: int)
    requires 0 <= k && m % 19 + k < 19
    ensures (m + k) % 19 == m % 19 + k
  {
    assert m + k == 19 * (m / 19) + (m % 19 + k);
  }

  /** The corrected adjustment always yields a number coprime to 95. */
  lemma AdjustCoprime(m: int)
    requires 0 <= m <= I32_MAX - 2
    ensures Coprime95(Adjust(m))
    ensures m <= Adjust(m) <= m + 2
  {
    if m % 5 == 0 && m % 19 == 18 {
      Shift5(m, 2);
      assert m + 2 == 19 * (m / 19 + 1) + 1;
    } else if m % 5 == 0 {
      Shift5(m, 1);
      Shift19(m, 1);
    } else if m % 5 == 4 && m % 19 == 0 {
      Shift19(m, 2);
      assert m + 2 == 5 * (m / 5 + 1) + 1;
    } else if m % 19 == 0 {
      Shift5(m, 1);
      Shift19(m, 1);
    }
  }

  /** The two adjustments differ exactly on the missed case. */
  lemma AdjustDiffers(m: int)
    requires 0 <= m <= I32_MAX - 2
    ensures Adjust(m) != AdjustAsWritten(m) <==> m % 5 == 0 && m % 19 == 18
  {
  }

  // ---------------------------------------------------------------------------
  // Arithmetic: multiplying by a number coprime to 95 is invertible modulo 95
  // ---------------------------------------------------------------------------

  /** `(q·x + r)(q·y + s)` is a multiple of `q` plus `r·s`. */
  lemma MulSplit(q: int, x: int, r: int, y: int, s: int)
    ensures (q * x + r) * (q * y + s) == q * (q * x * y + x * s + r * y) + r * s
  {
  }

  lemma ShiftMod5(k: int, t: int)
    ensures (5 * k + t) % 5 == t % 5
  {
  }

  lemma ShiftMod19(k: int, t: int)
    ensures (19 * k + t) % 19 == t % 19
  {
  }

  /** 5 is prime: a product of two non-zero remainders is not a multiple of 5. */
  lemma NoZeroDivisors5(r: int, s: int)
    requires 0 <= r < 5 && 0 < s < 5 && (r * s) % 5 == 0
    ensures r == 0
  {
    if s == 1 {
      assert (r * 1) % 5 == 0;
    } else if s == 2 {
      assert (r * 2) % 5 == 0;
    } else if s == 3 {
      assert (r * 3) % 5 == 0;
    } else {
      assert (r * 4) % 5 == 0;
    }
  }

  lemma Cancel5(a: int, b: int)
    requires (a * b) % 5 == 0 && b % 5 != 0
    ensures a % 5 == 0
  {
    var x, r := a / 5, a % 5;
    var y, s := b / 5, b % 5;
    assert a == 5 * x + r && b == 5 * y + s;
    MulSplit(5, x, r, y, s);
    ShiftMod5(5 * x * y + x * s + r * y, r * s);
    NoZeroDivisors5(r, s);
  }

  /** 19 is prime: a product of two non-zero remainders is not a multiple of 19. */
  lemma NoZeroDivisors19(r: int, s: int)
    requires 0 <= r < 19 && 0 < s < 19 && (r * s) % 19 == 0
    ensures r == 0
  {
    if s == 1 {
      assert (r * 1) % 19 == 0;
    } else if s == 2 {
      assert (r * 2) % 19 == 0;
    } else if s == 3 {
      assert (r * 3) % 19 == 0;
    } else if s == 4 {
      assert (r * 4) % 19 == 0;
    } else if s == 5 {
      assert (r * 5) % 19 == 0;
    } else if s == 6 {
      assert (r * 6) % 19 == 0;
    } else if s == 7 {
      assert (r * 7) % 19 == 0;
    } else if s == 8 {
      assert (r * 8) % 19 == 0;
    } else if s == 9 {
      assert (r * 9) % 19 == 0;
    } else if s == 10 {
      assert (r * 10) % 19 == 0;
    } else if s == 11 {
      assert (r * 11) % 19 == 0;
    } else if s == 12 {
      assert (r * 12) % 19 == 0;
    } else if s == 13 {
      assert (r * 13) % 19 == 0;
    } else if s == 14 {
      assert (r * 14) % 19 == 0;
    } else if s == 15 {
      assert (r * 15) % 19 == 0;
    } else if s == 16 {
      assert (r * 16) % 19 == 0;
    } else if s == 17 {
      assert (r * 17) % 19 == 0;
    } else if s == 18 {
      assert (r * 18) % 19 == 0;
    }
  }

  lemma Cancel19(a: int, b: int)
    requires (a * b) % 19 == 0 && b % 19 != 0
    ensures a % 19 == 0
  {
    var x, r := a / 19, a % 19;
    var y, s := b / 19, b % 19;
    assert a == 19 * x + r && b == 19 * y + s;
    MulSplit(19, x, r, y, s);
    ShiftMod19(19 * x * y + x * s + r * y, r * s);
    NoZeroDivisors19(r, s);
  }

  lemma MultipleOf95(x: int)
    requires x % 95 == 0
    ensures x % 5 == 0 && x % 19 == 0
  {
    assert x == 5 * (19 * (x / 95)) && x == 19 * (5 * (x / 95));
  }

  lemma SameRemainder(x: int, y: int)
    requires x % 95 == y % 95
    ensures (y - x) % 95 == 0
  {
    assert y - x == 95 * (y / 95 - x / 95);
  }

  lemma Cancel95(d: int, m: int)
    requires Coprime95(m) && (d * m) % 95 == 0
    ensures d % 95 == 0
  {
    MultipleOf95(d * m);
    Cancel5(d, m);
    Cancel19(d, m);
    MultipleOf5And19(d);
  }

  /** A multiple of both 5 and 19 is a multiple of 95. */
  lemma MultipleOf5And19(d: int)
    requires d % 5 == 0 && d % 19 == 0
    ensures d % 95 == 0
  {
    var e := d / 5;
    assert d == e * 5;
    Cancel19(e, 5);
    var f := e / 19;
    assert e == 19 * f;
    assert d == 95 * f;
  }

  /** Distinct multiples: `i ↦ (i · m) % 95` is injective on 1..95 when `m` is coprime to 95. */
  lemma MultiplesDistinct(m: int, i: int, j: int)
    requires Coprime95(m) && 0 < i < j <= 95
    ensures (i * m) % 95 != (j * m) % 95
  {
    if (i * m) % 95 == (j * m) % 95 {
      SameRemainder(i * m, j * m);
      assert (j - i) * m == j * m - i * m;
      Cancel95(j - i, m);
    }
  }

  // ---------------------------------------------------------------------------
  // Counting: n distinct numbers in a range of n numbers fill the range
  // ---------------------------------------------------------------------------

  predicate Distinct(s: seq<int>) {
    forall i, j :: 0 <= i < j < |s| ==> s[i] != s[j]
  }

  predicate InRange(x: int, lo: int, n: nat) {
    lo <= x < lo + n
  }

  function Range(lo: int, n: nat): set<int> {
    set x | lo <= x < lo + n && InRange(x, lo, n)
  }

  lemma {:induction false} RangeCard(lo: int, n: nat)
    ensures |Range(lo, n)| == n
  {
    if n > 0 {
      RangeCard(lo, n - 1);
      assert Range(lo, n) == Range(lo, n - 1) + {lo + n - 1};
    }
  }

  lemma {:induction false} DistinctCard(s: seq<int>)
    requires Distinct(s)
    ensures |set x | x in s| == |s|
  {
    if s != [] {
      var init := s[..|s| - 1];
      DistinctCard(init);
      assert (set x | x in s) == (set x | x in init) + {s[|s| - 1]};
    }
  }

  lemma SubsetSameCard(a: set<int>, b: set<int>)
    requires a <= b && |a| == |b|
    ensures a == b
  {
    assert a * b == a && a + b == b;
    assert |b - a| == 0;
  }

  /** `n` distinct values in `lo .. lo + n` take every value of that range. */
  lemma Pigeonhole(s: seq<int>, lo: int)
    requires Distinct(s)
    requires forall i :: 0 <= i < |s| ==> lo <= s[i] < lo + |s|
    ensures forall c :: lo <= c < lo + |s| ==> c in s
  {
    DistinctCard(s);
    RangeCard(lo, |s|);
    var inS := set x | x in s;
    SubsetSameCard(inS, Range(lo, |s|));
    forall c | lo <= c < lo + |s| ensures c in s {
      assert InRange(c, lo, |s|);
      assert c in inS;
    }
  }

  // ---------------------------------------------------------------------------
  // The table
  // ---------------------------------------------------------------------------

  /**
   * The integer table of `gen_encryption_key` for an adjusted multiplier `m`: for `i` in
   * 1..=95 the pair `(i + 31, (i · m) % 95 + 32)`, the product taken as `i32`.
   */
  function Table(m: int): (t: seq<(int, int)>)
    ensures |t| == 95
    ensures forall j :: 0 <= j < 95 ==> t[j].0 == j + 32
    ensures forall j :: 0 <= j < 95 ==> -62 <= t[j].1 <= 126
  {
    seq(95, j requires 0 <= j < 95 => (j + 32, TRem(I32((j + 1) * m), 95) + 32))
  }

  /** The multiplier is small enough that `i · m` never wraps for `i` up to 95. */
  predicate NoWrap(m: int) {
    0 <= m && 95 * m <= I32_MAX
  }

  /** The second column of a table. */
  function Seconds(t: seq<(int, int)>): (r: seq<int>)
    ensures |r| == |t| && forall j :: 0 <= j < |t| ==> r[j] == t[j].1
  {
    seq(|t|, j requires 0 <= j < |t| => t[j].1)
  }

  /** Without wrap-around the second column holds the residues `(i · m) % 95`, shifted to 32..126. */
  lemma TableSeconds(m: int, j: int)
    requires NoWrap(m) && 0 <= j < 95
    ensures Table(m)[j].1 == ((j + 1) * m) % 95 + 32
    ensures 32 <= Table(m)[j].1 <= 126
  {
    assert 0 <= (j + 1) * m <= 95 * m;
  }

  /**
   * When the multiplier is coprime to 95 and nothing wraps, the second column is a
   * permutation of 32..126.
   */
  lemma TablePermutes(m: int)
    requires Coprime95(m) && NoWrap(m)
    ensures Distinct(Seconds(Table(m)))
    ensures forall j :: 0 <= j < 95 ==> 32 <= Table(m)[j].1 <= 126
    ensures forall c :: 32 <= c <= 126 ==> c in Seconds(Table(m))
  {
    var s := Seconds(Table(m));
    forall j | 0 <= j < 95 ensures 32 <= Table(m)[j].1 <= 126 {
      TableSeconds(m, j);
    }
    forall i, j | 0 <= i < j < 95 ensures s[i] != s[j] {
      TableSeconds(m, i);
      TableSeconds(m, j);
      MultiplesDistinct(m, i + 1, j + 1);
    }
    Pigeonhole(s, 32);
  }

  // ---------------------------------------------------------------------------
  // Keys
  // ---------------------------------------------------------------------------

  /**
   * `char::from_u32(v as u32).unwrap_or('\u{FFFD}')`: a negative `v` becomes a number of
   * 2^31 or more, which is no character.
   */
  function CharOf(v: int): (c: char)
    ensures 0 <= v < 0xD800 ==> c as int == v
  {
    var u := v % I32_MOD;
    if u < 0xD800 || 0xE000 <= u <= 0x10FFFF then u as char else '\U{FFFD}'
  }

  /** A substitution key: the list of pairs `encrypt` and `decrypt` search. */
  type Key = seq<(char, char)>

  /** `characterise_enc_key` applied to a table. */
  function Characterise(t: seq<(int, int)>): (k: Key)
    ensures |k| == |t|
    ensures forall j :: 0 <= j < |t| ==> k[j] == (CharOf(t[j].0), CharOf(t[j].1))
  {
    seq(|t|, j requires 0 <= j < |t| => (CharOf(t[j].0), CharOf(t[j].1)))
  }

  /** `characterise_dec_key` applied to a table: the same pairs, each turned round. */
  function CharacteriseSwapped(t: seq<(int, int)>): (k: Key)
    ensures |k| == |t|
  {
    seq(|t|, j requires 0 <= j < |t| => (CharOf(t[j].1), CharOf(t[j].0)))
  }

  /** Every pair turned round. */
  function Swap(k: Key): (r: Key)
    ensures |r| == |k| && forall j :: 0 <= j < |k| ==> r[j] == (k[j].1, k[j].0)
  {
    seq(|k|, j requires 0 <= j < |k| => (k[j].1, k[j].0))
  }

  /** The multiplier before the `i32` cast. */
  function Product(s1: string, s2: string): (n: int)
    requires 0 < |Bytes(s1)|
    ensures n >= 0
  {
    var b1 := Bytes(s1);
    var n1, n2 := |b1| + b1[|Bytes(s2)| % |b1|], |Bytes(s2)|;
    assert n1 >= 0 && n2 >= 0;
    n1 * n2
  }

  /**
   * The strings a key is computed from in the model: the first is not empty and the
   * multiplier and its multiples up to 95 fit in `i32`.
   */
  predicate Small(s1: string, s2: string) {
    0 < |Bytes(s1)| <= I32_MAX && |Bytes(s2)| <= I32_MAX && 95 * (Product(s1, s2) + 2) <= I32_MAX
  }

  /** `gen_encryption_key(s1, s2)`, with the adjustment as written. */
  function GenKey(s1: string, s2: string): (t: seq<(int, int)>)
    requires 0 < |Bytes(s1)| <= I32_MAX && |Bytes(s2)| <= I32_MAX
    ensures |t| == 95
  {
    Table(AdjustAsWritten(BaseMult(s1, s2)))
  }

  /** `gen_encryption_key(s1, s2)` with the corrected multiplier adjustment. */
  function GenKeyCorrected(s1: string, s2: string): (t: seq<(int, int)>)
    requires 0 < |Bytes(s1)| <= I32_MAX && |Bytes(s2)| <= I32_MAX
    ensures |t| == 95
  {
    Table(Adjust(BaseMult(s1, s2)))
  }

  /** `characterise_enc_key(s1, s2)` */
  function EncKey(s1: string, s2: string): (k: Key)
    requires 0 < |Bytes(s1)| <= I32_MAX && |Bytes(s2)| <= I32_MAX
    ensures |k| == 95
    ensures forall j :: 0 <= j < 95 ==> k[j].0 as int == j + 32
  {
    Characterise(GenKey(s1, s2))
  }

  /** `characterise_dec_key(s1, s2)` */
  function DecKey(s1: string, s2: string): (k: Key)
    requires 0 < |Bytes(s1)| <= I32_MAX && |Bytes(s2)| <= I32_MAX
    ensures |k| == 95
  {
    CharacteriseSwapped(GenKey(s1, s2))
  }

  /** `characterise_enc_key(s1, s2)` with the corrected multiplier adjustment. */
  function EncKeyCorrected(s1: string, s2: string): (k: Key)
    requires 0 < |Bytes(s1)| <= I32_MAX && |Bytes(s2)| <= I32_MAX
    ensures |k| == 95
    ensures forall j :: 0 <= j < 95 ==> k[j].0 as int == j + 32
  {
    Characterise(GenKeyCorrected(s1, s2))
  }

  /** The decryption key is the encryption key with every pair turned round. */
  lemma DecKeyIsSwap(s1: string, s2: string)
    requires 0 < |Bytes(s1)| <= I32_MAX && |Bytes(s2)| <= I32_MAX
    ensures DecKey(s1, s2) == Swap(EncKey(s1, s2))
  {
  }

  // ---------------------------------------------------------------------------
  // encrypt / decrypt
  // ---------------------------------------------------------------------------

  /** `j` is the first pair whose first character is `c`. */
  predicate FirstFrom(k: Key, c: char, j: int) {
    0 <= j < |k| && k[j].0 == c && forall i :: 0 <= i < j ==> k[i].0 != c
  }

  /** `j` is the first pair whose second character is `c`. */
  predicate FirstTo(k: Key, c: char, j: int) {
    0 <= j < |k| && k[j].1 == c && forall i :: 0 <= i < j ==> k[i].1 != c
  }

  /** What `encrypt` puts for `c`: the partner in the first pair that starts with `c`, else `c`. */
  function Forward(k: Key, c: char): (r: char)
    ensures (forall j :: 0 <= j < |k| ==> k[j].0 != c) ==> r == c
    ensures forall j :: FirstFrom(k, c, j) ==> r == k[j].1
  {
    if k == [] then c
    else if k[0].0 == c then k[0].1
    else
      assert forall j :: FirstFrom(k, c, j) ==> FirstFrom(k[1..], c, j - 1);
      Forward(k[1..], c)
  }

  /** What `decrypt` puts for `c`: the partner in the first pair that ends with `c`, else `c`. */
  function Backward(k: Key, c: char): (r: char)
    ensures (forall j :: 0 <= j < |k| ==> k[j].1 != c) ==> r == c
    ensures forall j :: FirstTo(k, c, j) ==> r == k[j].0
  {
    if k == [] then c
    else if k[0].1 == c then k[0].0
    else
      assert forall j :: FirstTo(k, c, j) ==> FirstTo(k[1..], c, j - 1);
      Backward(k[1..], c)
  }

  /** `encrypt(key, text)`: every character replaced through the key. */
  function Encrypt(k: Key, t: string): (r: string)
    ensures |r| == |t|
    ensures forall i :: 0 <= i < |t| ==> r[i] == Forward(k, t[i])
  {
    seq(|t|, i requires 0 <= i < |t| => Forward(k, t[i]))
  }

  /** `decrypt(key, text)`: every character replaced back through the key. */
  function Decrypt(k: Key, t: string): (r: string)
    ensures |r| == |t|
    ensures forall i :: 0 <= i < |t| ==> r[i] == Backward(k, t[i])
  {
    seq(|t|, i requires 0 <= i < |t| => Backward(k, t[i]))
  }

  /** Looking forward in the turned-round key is looking backward in the key. */
  lemma {:induction false} ForwardSwap(k: Key, c: char)
    ensures Forward(Swap(k), c) == Backward(k, c)
  {
    if k != [] {
      assert Swap(k)[1..] == Swap(k[1..]);
      ForwardSwap(k[1..], c);
    }
  }

  /**
   * Encrypting with `characterise_dec_key` is decrypting with `characterise_enc_key`, for
   * every text and every pair of strings.
   */
  lemma EncryptWithDecKey(s1: string, s2: string, t: string)
    requires 0 < |Bytes(s1)| <= I32_MAX && |Bytes(s2)| <= I32_MAX
    ensures Encrypt(DecKey(s1, s2), t) == Decrypt(EncKey(s1, s2), t)
  {
    DecKeyIsSwap(s1, s2);
    forall i | 0 <= i < |t| ensures Forward(DecKey(s1, s2), t[i]) == Backward(EncKey(s1, s2), t[i]) {
      ForwardSwap(EncKey(s1, s2), t[i]);
    }
  }

  // ---------------------------------------------------------------------------
  // Bijective keys
  // ---------------------------------------------------------------------------

  predicate Printable(c: char) {
    32 <= c as int <= 126
  }

  /** Some pair of the key ends with `c`. */
  predicate Covered(k: Key, c: char) {
    exists j :: 0 <= j < |k| && k[j].1 == c
  }

  /**
   * The shape of a key that is a bijection of printable ASCII: the firsts are 32..126 in
   * order, and the seconds are those same characters in some order.
   */
  predicate Bijective(k: Key) {
    && |k| == 95
    && (forall j :: 0 <= j < 95 ==> k[j].0 as int == j + 32)
    && (forall j :: 0 <= j < 95 ==> Printable(k[j].1))
    && (forall i, j :: 0 <= i < j < 95 ==> k[i].1 != k[j].1)
    && (forall c :: Printable(c) ==> Covered(k, c))
  }

  /** A table whose second column permutes 32..126 gives a bijective key. */
  lemma CharacteriseBijective(m: int)
    requires Coprime95(m) && NoWrap(m)
    ensures Bijective(Characterise(Table(m)))
  {
    var t := Table(m);
    var k := Characterise(t);
    TablePermutes(m);
    forall j | 0 <= j < 95 ensures Printable(k[j].1) {
      assert k[j].1 as int == t[j].1;
    }
    forall i, j | 0 <= i < j < 95 ensures k[i].1 != k[j].1 {
      assert k[i].1 as int == Seconds(t)[i] && k[j].1 as int == Seconds(t)[j];
    }
    forall c | Printable(c) ensures Covered(k, c) {
      assert 32 <= c as int <= 126;
      assert c as int in Seconds(t);
      var j :| 0 <= j < 95 && Seconds(t)[j] == c as int;
      assert k[j].1 == c;
    }
  }

  /**
   * With the corrected adjustment, every pair of strings small enough not to wrap yields
   * a bijective key.
   */
  lemma EncKeyCorrectedBijective(s1: string, s2: string)
    requires Small(s1, s2)
    ensures Bijective(EncKeyCorrected(s1, s2))
  {
    var m0 := BaseMult(s1, s2);
    assert m0 == Product(s1, s2);
    AdjustCoprime(m0);
    CharacteriseBijective(Adjust(m0));
  }

  /** The multiplier of two strings is a multiple of 5 that is 18 mod 19: the missed case. */
  predicate MissedCase(s1: string, s2: string)
    requires 0 < |Bytes(s1)|
  {
    Product(s1, s2) % 5 == 0 && Product(s1, s2) % 19 == 18
  }

  /**
   * In the missed case the written adjustment yields a multiple of 19, and the rows for
   * `i = 1` and `i = 6` of the table receive the same character.
   */
  lemma MissedNotBijective(m: int)
    requires 0 <= m && 95 * (m + 2) <= I32_MAX && m % 5 == 0 && m % 19 == 18
    ensures !Bijective(Characterise(Table(AdjustAsWritten(m))))
  {
    FirstArmAsWritten(m);
    var a := m + 1;
    assert a == 19 * (m / 19 + 1);
    SixfoldSame(a, m / 19 + 1);
    TableSeconds(a, 0);
    TableSeconds(a, 5);
    var t := Table(a);
    assert t[0].1 == t[5].1;
    var k := Characterise(t);
    assert k[0].1 == k[5].1;
  }

  /** Six times a multiple of 19 leaves the same remainder modulo 95 as the number itself. */
  lemma SixfoldSame(a: int, q: int)
    requires a == 19 * q
    ensures (6 * a) % 95 == (1 * a) % 95
  {
    assert 6 * a == 95 * q + a;
    ShiftMod95(q, a);
  }

  lemma ShiftMod95(q: int, x: int)
    ensures (95 * q + x) % 95 == x % 95
  {
  }

  /**
   * The program's key for two strings whose multiplier does not wrap is a bijection
   * exactly when the multiplier avoids the case the written adjustment misses.
   */
  lemma EncKeyBijectiveIff(s1: string, s2: string)
    requires Small(s1, s2)
    ensures Bijective(EncKey(s1, s2)) <==> !MissedCase(s1, s2)
  {
    var m := BaseMult(s1, s2);
    assert m == Product(s1, s2);
    if MissedCase(s1, s2) {
      MissedNotBijective(m);
    } else {
      AdjustAsWrittenArms(m);
      CharacteriseBijective(AdjustAsWritten(m));
    }
  }

  /** In a bijective key the pair for a printable character is the one at its code minus 32. */
  lemma BijectiveLookups(k: Key, c: char)
    requires Bijective(k)
    ensures Printable(c) ==> FirstFrom(k, c, c as int - 32)
    ensures Printable(c) ==> exists j :: FirstTo(k, c, j)
    ensures !Printable(c) ==> forall j :: 0 <= j < |k| ==> k[j].0 != c && k[j].1 != c
  {
    if Printable(c) {
      var j :| 0 <= j < |k| && k[j].1 == c;
      assert FirstTo(k, c, j);
    }
  }

  lemma BijectiveFirstTo(k: Key, j: int)
    requires Bijective(k) && 0 <= j < 95
    ensures FirstTo(k, k[j].1, j)
  {
  }

  /** Decrypting undoes encrypting under a bijective key. */
  lemma DecryptEncrypt(k: Key, t: string)
    requires Bijective(k)
    ensures Decrypt(k, Encrypt(k, t)) == t
  {
    forall i | 0 <= i < |t| ensures Backward(k, Forward(k, t[i])) == t[i] {
      var c := t[i];
      BijectiveLookups(k, c);
      if Printable(c) {
        var j := c as int - 32;
        BijectiveFirstTo(k, j);
      }
    }
  }

  /** Encrypting undoes decrypting under a bijective key. */
  lemma EncryptDecrypt(k: Key, t: string)
    requires Bijective(k)
    ensures Encrypt(k, Decrypt(k, t)) == t
  {
    forall i | 0 <= i < |t| ensures Forward(k, Backward(k, t[i])) == t[i] {
      var c := t[i];
      BijectiveLookups(k, c);
      if Printable(c) {
        var j :| FirstTo(k, c, j);
        BijectiveLookups(k, k[j].0);
      }
    }
  }

  /** Characters outside 32..126 pass both directions unchanged under a bijective key. */
  lemma UnprintableUnchanged(k: Key, t: string)
    requires Bijective(k)
    ensures forall i :: 0 <= i < |t| && !Printable(t[i]) ==> Encrypt(k, t)[i] == t[i] && Decrypt(k, t)[i] == t[i]
  {
    forall i | 0 <= i < |t| && !Printable(t[i]) ensures Encrypt(k, t)[i] == t[i] && Decrypt(k, t)[i] == t[i] {
      BijectiveLookups(k, t[i]);
    }
  }

  /** Characters outside 32..126 are never changed by `encrypt`, whatever the strings. */
  lemma EncryptKeepsUnprintable(s1: string, s2: string, t: string)
    requires 0 < |Bytes(s1)| <= I32_MAX && |Bytes(s2)| <= I32_MAX
    ensures forall i :: 0 <= i < |t| && !Printable(t[i]) ==> Encrypt(EncKey(s1, s2), t)[i] == t[i]
  {
  }

  // ---------------------------------------------------------------------------
  // The missed case, on concrete strings
  // ---------------------------------------------------------------------------

  /** The corrected adjustment takes 75 to 77, which is coprime to 95. */
  lemma AdjustFixes75()
    ensures Adjust(75) == 77 && Coprime95(77)
  {
    assert TRem(75, 5) == 0 && TRem(75, 19) == 18;
  }

  /** The multiplier of "AAAAAAAAAA" and "x" is (10 + 65) · 1 = 75. */
  lemma ExampleMultiplier()
    ensures 0 < |Bytes("AAAAAAAAAA")| <= I32_MAX && |Bytes("x")| <= I32_MAX
    ensures BaseMult("AAAAAAAAAA", "x") == 75
    ensures AdjustAsWritten(75) == 76
  {
    var s1, s2 := "AAAAAAAAAA", "x";
    assert IsAscii(s1) && IsAscii(s2);
    BytesOfAscii(s1);
    BytesOfAscii(s2);
    assert Bytes(s1)[1 % 10] == 65;
    assert TRem(75, 5) == 0;
  }

  /** Under multiplier 76, '~' (i = 95) goes to ' ' (residue 0). */
  lemma Table76Forward()
    ensures Forward(Characterise(Table(76)), '~') == ' '
  {
    var k := Characterise(Table(76));
    TableSeconds(76, 94);
    assert k[94] == ('~', ' ');
    assert forall i :: 0 <= i < 94 ==> k[i].0 as int == i + 32;
    assert FirstFrom(k, '~', 94);
  }

  /** Under multiplier 76, ' ' comes back from '$' (i = 5), the first pair that ends in it. */
  lemma Table76Backward()
    ensures Backward(Characterise(Table(76)), ' ') == '$'
  {
    var k := Characterise(Table(76));
    TableSeconds(76, 0);
    TableSeconds(76, 1);
    TableSeconds(76, 2);
    TableSeconds(76, 3);
    TableSeconds(76, 4);
    assert k[4] == ('$', ' ');
    assert k[0].1 != ' ' && k[1].1 != ' ' && k[2].1 != ' ' && k[3].1 != ' ';
    assert FirstTo(k, ' ', 4);
  }

  /** With multiplier 76 both '$' (i = 5) and '~' (i = 95) go to ' ' (residue 0). */
  lemma Table76Collides()
    ensures Forward(Characterise(Table(76)), '~') == ' '
    ensures Backward(Characterise(Table(76)), ' ') == '$'
  {
    Table76Forward();
    Table76Backward();
  }

  /**
   * For the strings "AAAAAAAAAA" and "x" the adjustment as written makes the multiplier
   * 76 = 4 · 19, and both '$' and '~' encrypt to ' ', so decrypting the encryption of "~"
   * gives "$".
   */
  lemma AsWrittenRoundTripFails()
    ensures 0 < |Bytes("AAAAAAAAAA")| <= I32_MAX && |Bytes("x")| <= I32_MAX
    ensures Encrypt(EncKey("AAAAAAAAAA", "x"), "~") == " "
    ensures Decrypt(EncKey("AAAAAAAAAA", "x"), " ") == "$"
    ensures Decrypt(EncKey("AAAAAAAAAA", "x"), Encrypt(EncKey("AAAAAAAAAA", "x"), "~")) != "~"
  {
    ExampleMultiplier();
    Table76Collides();
    assert EncKey("AAAAAAAAAA", "x") == Characterise(Table(76));
  }
}
