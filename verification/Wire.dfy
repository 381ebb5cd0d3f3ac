/** The primitives of the wire format: base-128 varints, tags, sizes and fixed-width numbers. */
module Wire {
  import opened Alignment

  type byte = b: int | 0 <= b < 256
  type Bytes = seq<byte>

  const TWO_32 := 0x1_0000_0000
  const TWO_64 := 0x1_0000_0000_0000_0000
  /** INT_MAX - kSlopBytes. */
  const MAX_SIZE := 0x7FFF_FFEF

  /** The result of reading at the front of some bytes: a value and how many bytes it took. */
  datatype Read<+T> = Fail | Read(value: T, length: nat)

  /** A base-128 number of at most `limit` bytes, least significant group first. */
  function Base128(s: Bytes, limit: nat): (r: Read<nat>)
    ensures r.Read? ==> 0 < r.length <= |s| && r.length <= limit
    decreases limit
  {
    if limit == 0 || s == [] then Fail
    else if s[0] < 128 then Read(s[0], 1)
    else
      match Base128(s[1..], limit - 1)
      case Fail => Fail
      case Read(v, n) => Read(s[0] - 128 + 128 * v, n + 1)
  }

  function ReadVarint64(s: Bytes): Read<nat> {
    match Base128(s, 10)
    case Fail => Fail
    case Read(v, n) => Read(v % TWO_64, n)
  }

  function ReadTag(s: Bytes): Read<nat> {
    match Base128(s, 5)
    case Fail => Fail
    case Read(v, n) => Read(v % TWO_32, n)
  }

  /** A fifth byte of 8 or more means 2 GB or more; sizes next to INT_MAX are refused as well. */
  function ReadSize(s: Bytes): (r: Read<nat>)
    ensures r.Read? ==> r.value <= MAX_SIZE
  {
    match Base128(s, 5)
    case Fail => Fail
    case Read(v, n) => if v <= MAX_SIZE then Read(v, n) else Fail
  }

  function Varint(v: nat): (s: Bytes)
    ensures |s| > 0
  {
    if v < 128 then [v] else [v % 128 + 128] + Varint(v / 128)
  }

  // ----- reading what was written, whatever follows -----

  lemma {:induction false} VarintReadBack(v: nat, rest: Bytes, limit: nat)
    requires |Varint(v)| <= limit
    ensures Base128(Varint(v) + rest, limit) == Read(v, |Varint(v)|)
    decreases v
  {
    if v >= 128 {
      VarintReadBack(v / 128, rest, limit - 1);
      assert (Varint(v) + rest)[1..] == Varint(v / 128) + rest;
    }
  }

  lemma {:induction false} Base128Stable(s: Bytes, more: Bytes, limit: nat)
    requires Base128(s, limit).Read?
    ensures Base128(s + more, limit) == Base128(s, limit)
    decreases limit
  {
    if s[0] >= 128 {
      assert (s + more)[1..] == s[1..] + more;
      Base128Stable(s[1..], more, limit - 1);
    }
  }

  lemma {:induction false} VarintFits(v: nat, k: nat)
    requires k > 0 && v < Power128(k)
    ensures |Varint(v)| <= k
    decreases k
  {
    assert Power128(k) == 128 * Power128(k - 1);
    if v >= 128 {
      VarintFits(v / 128, k - 1);
    }
  }

  function Power128(k: nat): (p: nat)
    ensures p > 0
  {
    if k == 0 then 1 else 128 * Power128(k - 1)
  }

  lemma PowerBounds()
    ensures TWO_32 <= Power128(5) && TWO_64 <= Power128(10) && MAX_SIZE < TWO_32
  {
    assert Power128(3) == 0x20_0000;
    assert Power128(5) == 0x8_0000_0000;
    assert Power128(8) == 0x100_0000_0000_0000;
    assert Power128(10) == 0x40_0000_0000_0000_0000;
  }

  /** What is written as a 64-bit varint, a tag or a size is read back. */
  lemma {:induction false} ReadBack(v: nat, rest: Bytes)
    ensures v < TWO_64 ==> ReadVarint64(Varint(v) + rest) == Read(v, |Varint(v)|)
    ensures v < TWO_32 ==> ReadTag(Varint(v) + rest) == Read(v, |Varint(v)|)
    ensures v <= MAX_SIZE ==> ReadSize(Varint(v) + rest) == Read(v, |Varint(v)|)
  {
    PowerBounds();
    hide Varint, Base128, Power128;
    if v < TWO_64 { VarintFits(v, 10); VarintReadBack(v, rest, 10); }
    if v < TWO_32 { VarintFits(v, 5); VarintReadBack(v, rest, 5); }
  }

  lemma ReadsStable(s: Bytes, more: Bytes)
    ensures ReadVarint64(s).Read? ==> ReadVarint64(s + more) == ReadVarint64(s)
    ensures ReadTag(s).Read? ==> ReadTag(s + more) == ReadTag(s)
    ensures ReadSize(s).Read? ==> ReadSize(s + more) == ReadSize(s)
  {
    if Base128(s, 10).Read? { Base128Stable(s, more, 10); }
    if Base128(s, 5).Read? { Base128Stable(s, more, 5); }
  }

  // ----- the decoder's running sum -----

  /** The value of the first i groups. */
  function Low(s: Bytes, i: nat): int
    requires i <= |s|
  {
    if i == 0 then 0 else Low(s, i - 1) + (s[i - 1] - 128) * Power128(i - 1)
  }

  lemma Shift(b: int, p: int)
    ensures 128 * ((b - 128) * p) == (b - 128) * (128 * p)
  {
  }

  lemma {:induction false} LowFromFront(s: Bytes, i: nat)
    requires 0 < i <= |s|
    ensures Low(s, i) == (s[0] - 128) + 128 * Low(s[1..], i - 1)
  {
    if i > 1 {
      LowFromFront(s, i - 1);
      assert s[1..][i - 2] == s[i - 1];
      Shift(s[i - 1], Power128(i - 2));
    } else {
      assert Power128(0) == 1;
    }
  }

  lemma NothingSplit(s: Bytes, limit: nat)
    ensures Base128(s, limit) == Prefixed(Base128(s[0..], limit), Low(s, 0), Power128(0), 0)
  {
    assert s[0..] == s;
  }

  lemma FirstSplit(s: Bytes, limit: nat)
    requires s != [] && s[0] >= 128 && limit > 0
    ensures Base128(s, limit) == Prefixed(Base128(s[1..], limit - 1), s[0] - 128, 128, 1)
  {
  }

  lemma Power128Step(i: nat)
    requires i > 0
    ensures Power128(i) == 128 * Power128(i - 1)
  {
  }

  /** Past i continuation bytes, what remains to be read is the number that starts there. */
  lemma {:induction false} Base128Split(s: Bytes, i: nat, limit: nat)
    requires i <= |s| && i <= limit && forall j :: 0 <= j < i ==> s[j] >= 128
    ensures Base128(s, limit) == Prefixed(Base128(s[i..], limit - i), Low(s, i), Power128(i), i)
    decreases i
  {
    hide Base128, Low, Power128, Prefixed;
    if i == 0 {
      NothingSplit(s, limit);
    } else {
      Base128Split(s[1..], i - 1, limit - 1);
      assert s[1..][i - 1..] == s[i..];
      LowFromFront(s, i);
      FirstSplit(s, limit);
      Power128Step(i);
      PrefixedTwice(Base128(s[i..], limit - i), Low(s[1..], i - 1), Power128(i - 1), i - 1, s[0] - 128);
    }
  }

  function Prefixed(r: Read<int>, low: int, power: nat, i: nat): Read<int> {
    match r
    case Fail => Fail
    case Read(v, n) => Read(low + power * v, n + i)
  }

  lemma PrefixedTwice(r: Read<nat>, low: int, power: nat, i: nat, first: int)
    ensures Prefixed(Prefixed(r, low, power, i), first, 128, 1) == Prefixed(r, first + 128 * low, 128 * power, i + 1)
  {
    if r.Read? { assert 128 * (low + power * r.value) == 128 * low + 128 * power * r.value; }
  }

  lemma AddModulo(a: int, b: int, m: int)
    requires m > 0
    ensures (a % m + b) % m == (a + b) % m
  {
    FundamentalDivMod(a, m);
    FundamentalDivMod(a % m + b, m);
    FundamentalDivMod(a + b, m);
    var q := a / m + (a % m + b) / m;
    assert q * m == a / m * m + (a % m + b) / m * m;
    RemainderUnique(q, (a + b) / m, (a % m + b) % m, (a + b) % m, m);
  }

  /** VarintParse with limit 10 and a 64-bit sum, ReadTag with limit 5 and a 32-bit sum. Each byte
      is added less one and shifted: the one taken off cancels the continuation bit of the byte
      before. */
  method ParseVarint(s: Bytes, limit: nat, modulus: nat) returns (r: Read<nat>)
    requires limit > 0 && modulus >= 256
    ensures r == match Base128(s, limit)
      case Fail => Fail
      case Read(v, n) => Read(v % modulus, n)
  {
    if s == [] { return Fail; }
    var res: nat := s[0];
    if s[0] < 128 { return Read(res, 1); }
    var i, shifted := 1, 128;
    LowNext(s, 0);
    while i < limit
      invariant 1 <= i <= limit && i <= |s| && forall j :: 0 <= j < i ==> s[j] >= 128
      invariant shifted == Power128(i)
      invariant res == (Low(s, i) + Power128(i)) % modulus
    {
      Base128Split(s, i, limit);
      if i == |s| { return Fail; }
      LowNext(s, i);
      if s[i] < 128 { assert Base128(s[i..], limit - i) == Read(s[i], 1); }
      hide Base128, Low, Power128;
      var b: int := s[i];
      var term := (b - 1) * shifted;
      AddModulo(Low(s, i) + Power128(i), term, modulus);
      ByteLessOne(Low(s, i), Power128(i), b);
      res := (res + term) % modulus;
      if s[i] < 128 { return Read(res, i + 1); }
      shifted := shifted * 128;
      i := i + 1;
    }
    Base128Split(s, i, limit);
    r := Fail;
  }

  lemma LowNext(s: Bytes, i: nat)
    requires i < |s|
    ensures Low(s, 0) == 0 && Power128(0) == 1
    ensures Low(s, i + 1) == Low(s, i) + (s[i] - 128) * Power128(i) && Power128(i + 1) == 128 * Power128(i)
  {
  }

  lemma ByteLessOne(low: int, power: int, b: int)
    ensures low + power + (b - 1) * power == low + power * b == low + (b - 128) * power + 128 * power
  {
  }

  lemma {:induction false} LowBelow(s: Bytes, i: nat)
    requires i <= |s| && forall j :: 0 <= j < i ==> s[j] >= 128
    ensures 0 <= Low(s, i) < Power128(i)
  {
    if i > 0 {
      LowBelow(s, i - 1);
      LowNext(s, i - 1);
      hide Low, Power128;
      GroupBelow(Low(s, i - 1), s[i - 1] - 128, Power128(i - 1));
    }
  }

  lemma GroupBelow(low: int, digit: int, power: int)
    requires 0 <= low < power && 0 <= digit < 128
    ensures 0 <= low + digit * power < 128 * power
  {
    assert 0 <= digit * power <= 127 * power;
  }

  /** What the running sum holds after i bytes, in 32 bits. */
  function RunningSum(s: Bytes, i: nat): nat
    requires i <= |s|
  {
    (Low(s, i) + Power128(i)) % TWO_32
  }

  /** One addition to it. */
  function AddGroup(res: nat, b: byte, shifted: nat): nat {
    (res + ((b as int) - 1) * shifted) % TWO_32
  }

  lemma SumStarts(s: Bytes)
    requires s != []
    ensures RunningSum(s, 1) == s[0] && Power128(1) == 128
  {
    LowNext(s, 0);
  }

  lemma GroupAdded(s: Bytes, i: nat)
    requires i < |s|
    ensures AddGroup(RunningSum(s, i), s[i], Power128(i)) == RunningSum(s, i + 1)
    ensures Power128(i + 1) == 128 * Power128(i)
  {
    LowNext(s, i);
    hide Low, Power128;
    AddModulo(Low(s, i) + Power128(i), (s[i] - 1) * Power128(i), TWO_32);
    ByteLessOne(Low(s, i), Power128(i), s[i]);
  }

  /** A number that ends with byte i and fits 32 bits is the running sum. */
  lemma SumAtEnd(s: Bytes, i: nat)
    requires i < |s| && 0 <= Low(s, i) + Power128(i) * s[i] < TWO_32
    ensures RunningSum(s, i + 1) == Low(s, i) + Power128(i) * s[i]
  {
    var v: nat := Low(s, i) + Power128(i) * s[i];
    assert Low(s, i + 1) + Power128(i + 1) == v by {
      LowNext(s, i);
      hide Low, Power128;
      ByteLessOne(Low(s, i), Power128(i), s[i]);
    }
    hide Low, Power128;
    SmallRemainder(v, TWO_32);
  }

  /** A size that ends within four bytes is small enough. */
  lemma SizeEnds(s: Bytes, i: nat)
    requires 0 < i < 4 && i < |s| && s[i] < 128 && forall j :: 0 <= j < i ==> s[j] >= 128
    ensures ReadSize(s) == Read(RunningSum(s, i + 1), i + 1)
  {
    LowBelow(s, i);
    Base128Split(s, i, 5);
    assert Base128(s[i..], 5 - i) == Read(s[i], 1);
    assert Power128(1) == 128 && Power128(2) == 0x4000 && Power128(3) == 0x20_0000;
    hide Base128, Low, Power128;
    GroupBelow(Low(s, i), s[i], Power128(i));
    SumAtEnd(s, i);
  }

  lemma SizeEndsEarly(s: Bytes)
    requires 0 < |s| <= 4 && forall j :: 0 <= j < |s| ==> s[j] >= 128
    ensures ReadSize(s) == Fail
  {
    Base128Split(s, |s|, 5);
  }

  /** A fifth byte of 8 or more makes the size 2 GB or more, or does not end it. */
  lemma FifthByte(s: Bytes)
    requires |s| > 4 && forall j :: 0 <= j < 4 ==> s[j] >= 128
    ensures ReadSize(s) == if s[4] < 8 && RunningSum(s, 5) <= MAX_SIZE then Read(RunningSum(s, 5), 5) else Fail
  {
    LowBelow(s, 4);
    Base128Split(s, 4, 5);
    assert Base128(s[4..], 1) == if s[4] < 128 then Read(s[4], 1) else Fail by {
      assert Base128(s[4..][1..], 0) == Fail;
    }
    assert Power128(2) == 0x4000;
    assert Power128(4) == 0x1000_0000;
    hide Base128, Low, Power128;
    if s[4] < 8 { SumAtEnd(s, 4); }
  }

  /** ReadSize and ReadSizeFallback: the running sum for four bytes, then the test on the fifth one
      and the test against INT_MAX. */
  method ParseSize(s: Bytes) returns (r: Read<nat>)
    ensures r == ReadSize(s)
  {
    if s == [] { return Fail; }
    var res: nat := s[0];
    if s[0] < 128 { return Read(res, 1); }
    var i: nat, shifted: nat := 1, 128;
    SumStarts(s);
    hide Base128, Power128, ReadSize, AddGroup, RunningSum;
    while i < 4
      invariant 1 <= i <= 4 && i <= |s| && forall j :: 0 <= j < i ==> s[j] >= 128
      invariant shifted == Power128(i) && res == RunningSum(s, i)
    {
      if i == |s| {
        SizeEndsEarly(s);
        return Fail;
      }
      GroupAdded(s, i);
      res := AddGroup(res, s[i], shifted);
      if s[i] < 128 {
        SizeEnds(s, i);
        return Read(res, i + 1);
      }
      shifted := shifted * 128;
      i := i + 1;
    }
    if |s| == 4 {
      SizeEndsEarly(s);
      return Fail;
    }
    FifthByte(s);
    if s[4] >= 8 { return Fail; }
    GroupAdded(s, 4);
    res := AddGroup(res, s[4], shifted);
    if res > MAX_SIZE { return Fail; }
    return Read(res, 5);
  }

  // ----- the size of a varint -----

  function Log2Floor(n: nat): nat
    requires n > 0
  {
    if n == 1 then 0 else 1 + Log2Floor(n / 2)
  }

  /** One multiplication instead of a division by 7; value | 1 keeps zero out of the logarithm. */
  function VarintSize(value: nat): nat {
    (Log2Floor(if value % 2 == 0 then value + 1 else value) * 9 + 73) / 64
  }

  lemma {:induction false} Log2OfOdd(n: nat)
    requires n > 0 && n % 2 == 0
    ensures Log2Floor(n + 1) == Log2Floor(n)
  {
    assert (n + 1) / 2 == n / 2;
  }

  lemma HalveQuotient(n: nat, k: nat)
    requires k > 0
    ensures n / k / 2 == n / (2 * k)
  {
    var q, r := n / k / 2, n / k % 2;
    FundamentalDivMod(n, k);
    FundamentalDivMod(n, 2 * k);
    assert (2 * q + r) * k == q * (2 * k) + r * k;
    assert r * k == 0 || r * k == k;
    RemainderUnique(q, n / (2 * k), r * k + n % k, n % (2 * k), 2 * k);
  }

  lemma {:induction false} Log2Step(n: nat, k: nat)
    requires k > 0 && n / k >= 2
    ensures n / (2 * k) > 0 && Log2Floor(n / k) == 1 + Log2Floor(n / (2 * k))
  {
    HalveQuotient(n, k);
  }

  lemma Log2Of128(n: nat)
    requires n >= 128
    ensures Log2Floor(n) == 7 + Log2Floor(n / 128)
  {
    hide Log2Floor;
    Log2Step(n, 1); Log2Step(n, 2); Log2Step(n, 4); Log2Step(n, 8); Log2Step(n, 16); Log2Step(n, 32); Log2Step(n, 64);
  }

  lemma {:induction false} VarintLength(v: nat)
    requires v > 0
    ensures |Varint(v)| == Log2Floor(v) / 7 + 1
    decreases v
  {
    if v >= 128 {
      VarintLength(v / 128);
      Log2Of128(v);
    } else {
      SmallLog(v);
    }
  }

  lemma SmallLog(v: nat)
    requires 0 < v < 128
    ensures Log2Floor(v) < 7
  {
    LogBelow(v, 7);
  }

  function Power2(k: nat): nat { if k == 0 then 1 else 2 * Power2(k - 1) }

  lemma {:induction false} LogBelow(v: nat, k: nat)
    requires 0 < v < Power2(k)
    ensures Log2Floor(v) < k
    decreases k
  {
    if v > 1 { LogBelow(v / 2, k - 1); }
  }

  /** The fast size formula counts the bytes of the encoding, for every 64-bit value. */
  lemma {:induction false} VarintSizeExact(v: nat)
    requires v < TWO_64
    ensures VarintSize(v) == |Varint(v)|
  {
    if v == 0 {
      assert Log2Floor(1) == 0;
    } else {
      VarintLength(v);
      if v % 2 == 0 { Log2OfOdd(v); }
      Power2Of64();
      LogBelow(v, 64);
      DivideBySeven(Log2Floor(v));
    }
  }

  lemma Power2Of64()
    ensures Power2(64) == TWO_64
  {
    assert Power2(8) == 256;
    Power2Adds(8, 8); Power2Adds(16, 16); Power2Adds(32, 32);
  }

  lemma {:induction false} Power2Adds(a: nat, b: nat)
    ensures Power2(a + b) == Power2(a) * Power2(b)
  {
    if b > 0 {
      Power2Adds(a, b - 1);
      assert Power2(a + b) == 2 * Power2(a + b - 1) && Power2(b) == 2 * Power2(b - 1);
      hide Power2;
      TwiceProduct(Power2(a), Power2(b - 1));
    }
  }

  lemma TwiceProduct(x: int, y: int)
    ensures x * (2 * y) == 2 * (x * y)
  {
  }

  lemma DivideBySeven(log: nat)
    requires log < 64
    ensures (log * 9 + 73) / 64 == log / 7 + 1
  {
    var q, r := log / 7, log % 7;
    assert log * 9 + 73 == 64 * (q + 1) + (9 * r + 9 - q);
  }

  // ----- fixed width, least significant byte first -----

  function Fixed(v: nat, width: nat): (s: Bytes)
    ensures |s| == width
  {
    if width == 0 then [] else [v % 256] + Fixed(v / 256, width - 1)
  }

  function ReadFixed(s: Bytes, width: nat): (r: Read<nat>)
    ensures r.Read? <==> width <= |s|
    ensures r.Read? ==> r.length == width && r.value < Power256(width)
  {
    if width == 0 then Read(0, 0)
    else if s == [] then Fail
    else
      match ReadFixed(s[1..], width - 1)
      case Fail => Fail
      case Read(v, n) => Read(s[0] + 256 * v, n + 1)
  }

  function Power256(k: nat): nat { if k == 0 then 1 else 256 * Power256(k - 1) }

  lemma {:induction false} FixedReadBack(v: nat, width: nat, rest: Bytes)
    requires v < Power256(width)
    ensures ReadFixed(Fixed(v, width) + rest, width) == Read(v, width)
  {
    if width > 0 {
      FixedReadBack(v / 256, width - 1, rest);
      assert (Fixed(v, width) + rest)[1..] == Fixed(v / 256, width - 1) + rest;
    }
  }

  lemma {:induction false} FixedStable(s: Bytes, width: nat, more: Bytes)
    requires width <= |s|
    ensures ReadFixed(s + more, width) == ReadFixed(s, width)
  {
    if width > 0 {
      assert (s + more)[1..] == s[1..] + more;
      FixedStable(s[1..], width - 1, more);
    }
  }
}
