/** Register fields: the macros that make a field's mask, place a value in it and get it
    back, on 64-bit words, and what they do to registers of any number of fields. */
module BitFields {
  import opened Words

  /** The bitwise operators, on words as natural numbers. */
  function And(a: nat, b: nat): nat {
    if a == 0 || b == 0 then 0
    else 2 * And(a / 2, b / 2) + if a % 2 == 1 && b % 2 == 1 then 1 else 0
  }

  function Or(a: nat, b: nat): nat {
    if a == 0 && b == 0 then 0
    else 2 * Or(a / 2, b / 2) + if a % 2 == 1 || b % 2 == 1 then 1 else 0
  }

  /** x moved n bits down; the low n bits of x. */
  function Shr(x: nat, n: nat): nat { if n == 0 then x else Shr(x / 2, n - 1) }

  function Low(x: nat, n: nat): nat { if n == 0 then 0 else 2 * Low(x / 2, n - 1) + x % 2 }

  /** Division with remainder by a power of two, in these terms. */
  lemma {:induction false} HighAndLow(x: nat, n: nat)
    ensures x == Up(Shr(x, n), n) + Low(x, n) && Low(x, n) < Up(1, n)
  {
    if n > 0 {
      HighAndLow(x / 2, n - 1);
    }
  }

  /** Shifting left in 64 bits loses what does not fit. */
  function Shl(x: nat, n: nat): nat { Low(Up(x, n), 64) }

  function MakeMask(v: nat, n: nat): nat
    requires v < 64
  {
    ShlOfOne(v);
    Shl(Shl(1, v) - 1, n)
  }

  function MakeValue(v: nat, n: nat): nat { Shl(v, n) }

  function GetValue(v: nat, n: nat, m: nat): nat { Shr(And(v, m), n) }

  // ----- Single operators

  lemma {:induction false} LowUp(x: nat, n: nat, m: nat)
    ensures Low(Up(x, n), m) == if n <= m then Up(Low(x, m - n), n) else 0
    decreases n + m
  {
    if n > 0 && m > 0 {
      LowUp(x, n - 1, m - 1);
    }
  }

  lemma ShlOfOne(v: nat)
    requires v < 64
    ensures Shl(1, v) == Up(1, v) >= 1
  {
    LowUp(1, v, 64);
    LowOne(64 - v);
    UpPositive(v);
  }

  lemma {:induction false} LowZero(n: nat)
    ensures Low(0, n) == 0 && Shr(0, n) == 0 && Up(0, n) == 0
  {
    if n > 0 {
      LowZero(n - 1);
    }
  }

  lemma LowOne(n: nat)
    requires n > 0
    ensures Low(1, n) == 1
  {
    LowZero(n - 1);
  }

  lemma {:induction false} LowOnes(w: nat, n: nat)
    requires w <= n && Up(1, w) >= 1
    ensures Low(Up(1, w) - 1, n) == Up(1, w) - 1
  {
    if w > 0 {
      UpPositive(w - 1);
      assert (Up(1, w) - 1) / 2 == Up(1, w - 1) - 1 && (Up(1, w) - 1) % 2 == 1;
      LowOnes(w - 1, n - 1);
    } else {
      LowZero(n);
    }
  }

  lemma AndStep(a: nat, b: nat)
    ensures And(a, b) == 2 * And(a / 2, b / 2) + if a % 2 == 1 && b % 2 == 1 then 1 else 0
  {
  }

  lemma OrStep(a: nat, b: nat)
    ensures Or(a, b) == 2 * Or(a / 2, b / 2) + if a % 2 == 1 || b % 2 == 1 then 1 else 0
    ensures Or(a, b) / 2 == Or(a / 2, b / 2)
  {
  }

  /** Masking with w low ones keeps the low w bits. */
  lemma {:induction false} AndOnes(x: nat, w: nat)
    requires Up(1, w) >= 1
    ensures And(x, Up(1, w) - 1) == Low(x, w)
  {
    if w > 0 {
      UpPositive(w - 1);
      assert (Up(1, w) - 1) / 2 == Up(1, w - 1) - 1 && (Up(1, w) - 1) % 2 == 1;
      AndStep(x, Up(1, w) - 1);
      AndOnes(x / 2, w - 1);
    }
  }

  lemma {:induction false} AndUp(x: nat, m: nat, n: nat)
    ensures And(x, Up(m, n)) == Up(And(Shr(x, n), m), n)
  {
    hide And;
    if n > 0 {
      AndStep(x, Up(m, n));
      AndUp(x / 2, m, n - 1);
    }
  }

  lemma {:induction false} OrHigh(a: nat, b: nat, n: nat)
    ensures Shr(Or(a, b), n) == Or(Shr(a, n), Shr(b, n))
  {
    hide Or;
    if n > 0 {
      OrStep(a, b);
      OrHigh(a / 2, b / 2, n - 1);
    }
  }

  lemma {:induction false} OrLow(a: nat, b: nat, n: nat)
    ensures Low(Or(a, b), n) == Or(Low(a, n), Low(b, n))
  {
    hide Or;
    if n > 0 {
      OrStep(a, b);
      OrLow(a / 2, b / 2, n - 1);
      OrStep(Low(a, n), Low(b, n));
    } else {
      OrZero(0);
    }
  }

  /** Bit k of a & b and of a | b. */
  lemma {:induction false} AndBit(a: nat, b: nat, k: nat)
    ensures Shr(And(a, b), k) % 2 == 1 <==> Shr(a, k) % 2 == 1 && Shr(b, k) % 2 == 1
  {
    hide And;
    AndStep(a, b);
    if k > 0 {
      AndBit(a / 2, b / 2, k - 1);
    }
  }

  lemma {:induction false} OrBit(a: nat, b: nat, k: nat)
    ensures Shr(Or(a, b), k) % 2 == 1 <==> Shr(a, k) % 2 == 1 || Shr(b, k) % 2 == 1
  {
    hide Or;
    OrStep(a, b);
    if k > 0 {
      OrBit(a / 2, b / 2, k - 1);
    }
  }

  /** Ones absorb what is no longer than they are. */
  lemma {:induction false} OrAbsorbs(x: nat, n: nat)
    requires Shr(x, n) == 0 && Up(1, n) >= 1
    ensures Or(Up(1, n) - 1, x) == Up(1, n) - 1
  {
    hide Or;
    if n > 0 {
      UpPositive(n - 1);
      assert (Up(1, n) - 1) / 2 == Up(1, n - 1) - 1 && (Up(1, n) - 1) % 2 == 1;
      OrStep(Up(1, n) - 1, x);
      OrAbsorbs(x / 2, n - 1);
    } else {
      OrZero(0);
    }
  }

  lemma {:induction false} OrZero(x: nat)
    ensures Or(x, 0) == x && Or(0, x) == x
  {
    if x > 0 {
      OrZero(x / 2);
    }
  }

  lemma {:induction false} ShrUp(x: nat, k: nat, n: nat)
    ensures Shr(Up(x, k), n) == if n <= k then Up(x, k - n) else Shr(x, n - k)
    decreases k
  {
    if k > 0 && n > 0 {
      ShrUp(x, k - 1, n - 1);
    }
  }

  lemma {:induction false} LowLow(x: nat, m: nat, n: nat)
    requires n <= m
    ensures Low(Low(x, m), n) == Low(x, n)
  {
    if n > 0 {
      assert Low(x, m) / 2 == Low(x / 2, m - 1) && Low(x, m) % 2 == x % 2;
      LowLow(x / 2, m - 1, n - 1);
    }
  }

  /** The low n bits are all of x exactly when there are no others. */
  lemma {:induction false} LowIsAll(x: nat, n: nat)
    ensures Low(x, n) == x <==> Shr(x, n) == 0
  {
    if n > 0 {
      LowIsAll(x / 2, n - 1);
    }
  }

  lemma {:induction false} ShrOfLow(x: nat, m: nat, n: nat)
    requires Shr(x, n) == 0
    ensures Shr(Low(x, m), n) == 0
  {
    if m == 0 {
      LowZero(n);
    } else if n > 0 {
      ShrOfLow(x / 2, m - 1, n - 1);
    } else {
      LowZero(m);
    }
  }

  lemma {:induction false} ShrFurther(x: nat, m: nat, n: nat)
    requires Shr(x, m) == 0 && m <= n
    ensures Shr(x, n) == 0
  {
    if m > 0 {
      ShrFurther(x / 2, m - 1, n - 1);
    } else {
      LowZero(n);
    }
  }

  lemma {:induction false} ShrShr(x: nat, m: nat, n: nat)
    ensures Shr(Shr(x, m), n) == Shr(x, m + n)
    decreases m
  {
    if m > 0 {
      ShrShr(x / 2, m - 1, n);
    }
  }

  lemma {:induction false} UpUp(x: nat, m: nat, n: nat)
    ensures Up(Up(x, m), n) == Up(x, m + n)
    decreases n
  {
    if n > 0 {
      UpUp(x, m, n - 1);
    }
  }

  lemma {:induction false} UpGrows(x: nat, y: nat, n: nat)
    requires x < y
    ensures Up(x, n) + Up(1, n) <= Up(y, n)
  {
    if n > 0 {
      UpGrows(x, y, n - 1);
    }
  }

  /** There are no bits from n on exactly when x is below the n-th power of two. */
  lemma ShrIsZero(x: nat, n: nat)
    ensures Shr(x, n) == 0 <==> x < Up(1, n)
  {
    HighAndLow(x, n);
    LowZero(n);
    if Shr(x, n) > 0 {
      UpGrows(0, Shr(x, n), n);
    }
  }

  lemma {:induction false} OrAssociates(a: nat, b: nat, c: nat)
    ensures Or(Or(a, b), c) == Or(a, Or(b, c))
    decreases a + b + c
  {
    if a + b + c > 0 {
      OrStep(a, b);
      OrStep(b, c);
      OrStep(Or(a, b), c);
      OrStep(a, Or(b, c));
      OrAssociates(a / 2, b / 2, c / 2);
    }
  }

  /** The three moves as arithmetic. */
  lemma {:induction false} UpIsProduct(x: nat, n: nat)
    ensures Up(x, n) == x * Pow2(n)
  {
    if n > 0 {
      UpIsProduct(x, n - 1);
      assert 2 * (x * Pow2(n - 1)) == x * Pow2(n);
    }
  }

  lemma MovesAreArithmetic(x: nat, n: nat, p: int)
    requires p == Pow2(n)
    ensures x / p == Shr(x, n) && x % p == Low(x, n)
  {
    HighAndLow(x, n);
    UpIsProduct(Shr(x, n), n);
    QuotientIsUnique(x, p, Shr(x, n), Low(x, n));
  }

  lemma AndZero(b: nat)
    ensures And(0, b) == 0
  {
  }

  /** A mask in two parts picks the bits of each part. */
  lemma {:induction false} AndSplits(x: nat, a: nat, b: nat, n: nat)
    requires Shr(b, n) == 0
    ensures And(x, Up(a, n) + b) == Up(And(Shr(x, n), a), n) + And(Low(x, n), b)
  {
    hide And;
    AndStep(x, Up(a, n) + b);
    AndStep(Low(x, n), b);
    if n == 0 {
      AndZero(0);
    } else {
      AndSplits(x / 2, a, b / 2, n - 1);
    }
  }

  /** Values with no bit in common are combined by adding them. */
  lemma {:induction false} OrIsSum(a: nat, b: nat, n: nat)
    requires Shr(b, n) == 0
    ensures Or(Up(a, n), b) == Up(a, n) + b
  {
    if n > 0 {
      OrStep(Up(a, n), b);
      OrIsSum(a, b / 2, n - 1);
    } else {
      OrZero(a);
    }
  }

  /** x with its low n bits cleared. */
  function Aligned(x: nat, n: nat): nat { Up(Shr(x, n), n) }

  /** The powers of two that registers are made of. */
  lemma Powers()
    ensures Pow2(0) == 1 && Pow2(1) == 2 && Pow2(2) == 4 && Pow2(3) == 8 && Pow2(6) == 0x40 && Pow2(8) == 0x100
    ensures Pow2(12) == 0x1000 && Pow2(13) == 0x2000 && Pow2(14) == 0x4000 && Pow2(18) == 0x4_0000
    ensures Pow2(28) == 0x1000_0000 && Pow2(31) == 0x8000_0000 && Pow2(40) == 0x100_0000_0000
    ensures Pow2(44) == 0x1000_0000_0000 && Pow2(62) == 0x4000_0000_0000_0000
    ensures Pow2(64) == 0x1_0000_0000_0000_0000
  {
    hide Pow2;
    FirstPowers();
    PowerSum(2, 1, 4, 2);
    PowerSum(3, 3, 8, 8);
    PowerSum(6, 2, 0x40, 4);
    PowerSum(6, 6, 0x40, 0x40);
    PowerSum(12, 1, 0x1000, 2);
    PowerSum(12, 2, 0x1000, 4);
    PowerSum(12, 6, 0x1000, 0x40);
    PowerSum(14, 14, 0x4000, 0x4000);
    PowerSum(28, 3, 0x1000_0000, 8);
    PowerSum(28, 12, 0x1000_0000, 0x1000);
    PowerSum(31, 13, 0x8000_0000, 0x2000);
    PowerSum(44, 18, 0x1000_0000_0000, 0x4_0000);
    PowerSum(62, 2, 0x4000_0000_0000_0000, 4);
  }

  lemma FirstPowers()
    ensures Pow2(0) == 1 && Pow2(1) == 2 && Pow2(2) == 4
  {
  }

  lemma PowerSum(m: nat, n: nat, p: nat, q: nat)
    requires Pow2(m) == p && Pow2(n) == q
    ensures Pow2(m + n) == p * q
  {
    UpUp(1, m, n);
    UpIsProduct(p, n);
  }

  /** The mask of all bits but the low n, as the complement of n ones. */
  lemma AndAligns(x: nat, n: nat)
    requires x < 0x1_0000_0000_0000_0000 && n <= 64
    ensures Up(1, n) <= 0x1_0000_0000_0000_0000
    ensures And(x, 0x1_0000_0000_0000_0000 - Up(1, n)) == Aligned(x, n)
  {
    Powers();
    UpPositive(64 - n);
    UpUp(1, 64 - n, n);
    UpLess(Up(1, 64 - n), n);
    AndUp(x, Up(1, 64 - n) - 1, n);
    AndOnes(Shr(x, n), 64 - n);
    ShrShr(x, n, 64 - n);
    ShrIsZero(x, 64);
    LowIsAll(Shr(x, n), 64 - n);
  }

  lemma {:induction false} UpLess(x: nat, n: nat)
    requires x > 0
    ensures Up(x - 1, n) + Up(1, n) == Up(x, n)
  {
    if n > 0 {
      UpLess(x, n - 1);
    }
  }

  /** Cutting an aligned value to the bits from s up to s + w loses nothing exactly when the
      value has no bits beyond. */
  lemma CutAligned(x: nat, n: nat, s: nat, w: nat)
    requires s <= n <= s + w
    ensures Up(Low(Shr(Aligned(x, n), s), w), s) == Aligned(x, n) <==> x < Up(1, s + w)
  {
    hide Up, Low, Shr;
    var y, k := Shr(x, n), n - s;
    ShrUp(y, n, s);
    LowUp(y, k, w);
    UpUp(Low(y, w - k), k, s);
    ShrShr(x, n, w - k);
    ShrIsZero(x, s + w);
    LowIsAll(y, w - k);
    if Low(y, w - k) != y {
      HighAndLow(y, w - k);
      UpGrows(Low(y, w - k), y, n);
      UpPositive(n);
    }
  }

  lemma UpZero(x: nat)
    ensures Up(x, 0) == x
  {
  }

  // ----- Fields

  /** A field of width bits from bit pos on, and the value to place there. */
  datatype Field = Field(pos: nat, width: nat, value: nat)

  /** Inside 64 bits, and narrower. */
  predicate Legal(f: Field) { 0 < f.width < 64 && f.pos + f.width <= 64 }

  predicate Fits(f: Field) { Shr(f.value, f.width) == 0 }

  predicate Disjoint(f: Field, g: Field) {
    f.pos + f.width <= g.pos || g.pos + g.width <= f.pos
  }

  /** The value placed for g has no bit where f is. */
  predicate Spares(g: Field, f: Field) {
    f.pos + f.width <= g.pos || Shr(Up(g.value, g.pos), f.pos) == 0
  }

  function Placed(f: Field): nat { MakeValue(f.value, f.pos) }

  function Get(f: Field, word: nat): nat
    requires Legal(f)
  {
    GetValue(word, f.pos, MakeMask(f.width, f.pos))
  }

  predicate AllLegal(fields: seq<Field>) {
    forall i :: 0 <= i < |fields| ==> Legal(fields[i])
  }

  /** The register made of the fields: all values placed and combined with |. */
  function Word(fields: seq<Field>): nat {
    if fields == [] then 0 else Or(Placed(fields[0]), Word(fields[1..]))
  }

  lemma {:induction false} WordIs64(fields: seq<Field>)
    ensures Word(fields) < 0x1_0000_0000_0000_0000
  {
    Powers();
    if fields != [] {
      var p, rest := Placed(fields[0]), Word(fields[1..]);
      WordIs64(fields[1..]);
      HighAndLow(Up(fields[0].value, fields[0].pos), 64);
      ShrIsZero(p, 64);
      ShrIsZero(rest, 64);
      OrHigh(p, rest, 64);
      ShrIsZero(Or(p, rest), 64);
    }
  }

  /** Mask and shift leave the width bits from pos on. */
  lemma GetMeaning(f: Field, word: nat)
    requires Legal(f)
    ensures Get(f, word) == Low(Shr(word, f.pos), f.width)
  {
    hide Up, Low, Shr, And;
    ShlOfOne(f.width);
    UpZero(Low(Shr(word, f.pos), f.width));
    LowUp(Up(1, f.width) - 1, f.pos, 64);
    LowOnes(f.width, 64 - f.pos);
    AndUp(word, Up(1, f.width) - 1, f.pos);
    AndOnes(Shr(word, f.pos), f.width);
    ShrUp(Low(Shr(word, f.pos), f.width), f.pos, f.pos);
  }

  lemma GetOr(f: Field, a: nat, b: nat)
    requires Legal(f)
    ensures Get(f, Or(a, b)) == Or(Get(f, a), Get(f, b))
  {
    GetMeaning(f, a);
    GetMeaning(f, b);
    GetMeaning(f, Or(a, b));
    OrHigh(a, b, f.pos);
    OrLow(Shr(a, f.pos), Shr(b, f.pos), f.width);
  }

  lemma GetOwn(f: Field)
    requires Legal(f)
    ensures Get(f, Placed(f)) == Low(f.value, f.width)
  {
    GetMeaning(f, Placed(f));
    LowUp(f.value, f.pos, 64);
    ShrUp(Low(f.value, 64 - f.pos), f.pos, f.pos);
    LowLow(f.value, 64 - f.pos, f.width);
  }

  lemma GetOther(f: Field, g: Field)
    requires Legal(f) && Legal(g) && Spares(g, f)
    ensures Get(f, Placed(g)) == 0
  {
    GetMeaning(f, Placed(g));
    if f.pos + f.width <= g.pos {
      LowUp(g.value, g.pos, 64);
      ShrUp(Low(g.value, 64 - g.pos), g.pos, f.pos);
      UpOfNothing(Low(g.value, 64 - g.pos), g.pos - f.pos, f.width);
    } else {
      ShrOfLow(Up(g.value, g.pos), 64, f.pos);
      LowZero(f.width);
    }
  }

  lemma UpOfNothing(x: nat, n: nat, m: nat)
    requires m <= n
    ensures Low(Up(x, n), m) == 0
  {
    LowUp(x, n, m);
    LowZero(n);
  }

  /** No other field's value reaches into field k. */
  predicate Spared(fields: seq<Field>, k: nat)
    requires k < |fields|
  {
    forall j :: 0 <= j < |fields| && j != k ==> Spares(fields[j], fields[k])
  }

  lemma {:induction false} NothingOfField(f: Field, fields: seq<Field>)
    requires Legal(f) && AllLegal(fields)
    requires forall j :: 0 <= j < |fields| ==> Spares(fields[j], f)
    ensures Get(f, Word(fields)) == 0
  {
    if fields == [] {
      GetMeaning(f, 0);
      LowZero(f.pos);
      LowZero(f.width);
    } else {
      hide Get, Spares, Placed;
      GetOther(f, fields[0]);
      NothingOfField(f, fields[1..]);
      GetOr(f, Placed(fields[0]), Word(fields[1..]));
    }
  }

  /** A field nothing else reaches gives back the low bits of its value. */
  lemma {:induction false} FieldOfWord(fields: seq<Field>, k: nat)
    requires AllLegal(fields) && k < |fields| && Spared(fields, k)
    ensures Get(fields[k], Word(fields)) == Low(fields[k].value, fields[k].width)
  {
    hide Get, Spares, Placed;
    var f, rest := fields[k], fields[1..];
    GetOr(f, Placed(fields[0]), Word(rest));
    OrZero(Low(f.value, f.width));
    assert forall j :: 0 <= j < |rest| ==> rest[j] == fields[j + 1];
    if k == 0 {
      GetOwn(f);
      NothingOfField(f, rest);
    } else {
      GetOther(f, fields[0]);
      FieldOfWord(rest, k - 1);
    }
  }

  lemma FitsSpares(g: Field, f: Field)
    requires Disjoint(f, g) && Fits(g)
    ensures Spares(g, f)
  {
    if g.pos + g.width <= f.pos {
      ShrUp(g.value, g.pos, f.pos);
      ShrFurther(g.value, g.width, f.pos - g.pos);
    }
  }

  predicate AllDisjoint(fields: seq<Field>) {
    forall i, j :: 0 <= i < |fields| && 0 <= j < |fields| && i != j ==> Disjoint(fields[i], fields[j])
  }

  predicate AllFit(fields: seq<Field>) {
    forall k :: 0 <= k < |fields| ==> Fits(fields[k])
  }

  /** Every field gives its value back. */
  predicate AllReturned(fields: seq<Field>)
    requires AllLegal(fields)
  {
    forall k :: 0 <= k < |fields| ==> Get(fields[k], Word(fields)) == fields[k].value
  }

  lemma GetFits(f: Field, word: nat)
    requires Legal(f) && Get(f, word) == f.value
    ensures Fits(f)
  {
    GetMeaning(f, word);
    LowLow(Shr(word, f.pos), f.width, f.width);
    LowIsAll(f.value, f.width);
  }

  /** Any list of disjoint fields: each gives its value back exactly when every value is no
      wider than its field. */
  lemma FieldsRoundTrip(fields: seq<Field>)
    requires AllLegal(fields) && AllDisjoint(fields)
    ensures AllReturned(fields) <==> AllFit(fields)
  {
    hide Get, Word, Fits, Spares, Disjoint;
    forall k | 0 <= k < |fields|
      ensures Get(fields[k], Word(fields)) == fields[k].value ==> Fits(fields[k])
    {
      if Get(fields[k], Word(fields)) == fields[k].value {
        GetFits(fields[k], Word(fields));
      }
    }
    if AllFit(fields) {
      forall k | 0 <= k < |fields|
        ensures Get(fields[k], Word(fields)) == fields[k].value
      {
        forall j | 0 <= j < |fields| && j != k
          ensures Spares(fields[j], fields[k])
        {
          assert Disjoint(fields[k], fields[j]);
          FitsSpares(fields[j], fields[k]);
        }
        FieldOfWord(fields, k);
        FitsIsAll(fields[k]);
      }
    }
  }

  lemma FitsIsAll(f: Field)
    ensures Fits(f) <==> Low(f.value, f.width) == f.value
  {
    LowIsAll(f.value, f.width);
  }
}
