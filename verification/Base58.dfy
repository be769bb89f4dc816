/**
 EncodeBase58 and DecodeBase58 of src/base58.cpp. A digit buffer of fixed size is
 multiplied and added to in place, digit by digit from its end; the result is the
 same number in the other base, with a '1' for every leading zero byte.
 */
module Base58 {

  import opened Powers
  import opened Digits
  import opened Radix
  import opened Basics

  // -------------------------------------------------------------------- alphabet

  /** pszBase58: digits and letters without 0, I, O and l. */
  function ToChar(d: nat): char
    requires d < 58
  {
    if d < 9 then (d + 49) as char else if d < 17 then (d - 9 + 65) as char else if d < 22 then (d - 17 + 74) as char
    else if d < 33 then (d - 22 + 80) as char else if d < 44 then (d - 33 + 97) as char else (d - 44 + 109) as char
  }

  /** mapBase58 */
  function FromChar(c: char): (r: Option<nat>)
    ensures r.Some? ==> r.value < 58
  {
    if '1' <= c <= '9' then Some(c as int - 49) else if 'A' <= c <= 'H' then Some(c as int - 65 + 9)
    else if 'J' <= c <= 'N' then Some(c as int - 74 + 17) else if 'P' <= c <= 'Z' then Some(c as int - 80 + 22)
    else if 'a' <= c <= 'k' then Some(c as int - 97 + 33) else if 'm' <= c <= 'z' then Some(c as int - 109 + 44)
        else None
  }

  lemma AlphabetInverse(d: nat, c: char)
    ensures d < 58 ==> FromChar(ToChar(d)) == Some(d)
    ensures FromChar(c).Some? ==> ToChar(FromChar(c).value) == c
  {}

  function Text(t: seq<nat>): (r: string)
    requires Below(58, t)
    ensures |r| == |t|
  {
    seq(|t|, i requires 0 <= i < |t| => ToChar(t[i]))
  }

  // ------------------------------------------------------------------- the buffer

  /** The digits of v fill exactly n places. */
  predicate Tight(b: nat, v: nat, n: nat) { v < Pow(b, n) && (n > 0 ==> Pow(b, n - 1) <= v) }

  function Mul(x: nat, y: nat): nat { x * y }
  function Quo(n: nat, b: nat): nat requires 0 < b { n / b }
  function Rem(n: nat, b: nat): (r: nat)
    requires 0 < b
    ensures r < b
  {
    n % b
  }

  /** One column of a multiplication in place. */
  lemma Column(b: nat, n: nat, p: nat, carry: nat, mul: nat, d: nat)
    requires 0 < b && n == carry + mul * d
    ensures (n % b) * p + (n / b) * (p * b) == carry * p + mul * (d * p)
  {
    DivModLaw(n, b);
    MulDistrib((n / b) * b, n % b, p);
    assert ((n / b) * b) * p == (n / b) * (p * b);
    MulDistrib(carry, mul * d, p);
    MulAssoc(mul, d, p);
  }

  /** Extending the settled low digits by one column. */
  lemma ColumnSum(b: nat, now: seq<nat>, was: seq<nat>, i: nat, carry: nat, mul: nat, c0: nat)
    requires 0 < b && i < |now| == |was|
    requires var k := |now| - 1 - i; var n := carry + Mul(mul, was[k]);
      && now[k] == Rem(n, b)
      && Num(b, now[k + 1..]) + Mul(carry, Pow(b, i)) == Mul(mul, Num(b, was[k + 1..])) + c0
    ensures var k := |now| - 1 - i; var n := carry + Mul(mul, was[k]);
      Num(b, now[k..]) + Mul(Quo(n, b), Pow(b, i + 1)) == Mul(mul, Num(b, was[k..])) + c0
  {
    hide Num, Pow;
    var k := |now| - 1 - i;
    var n := carry + mul * was[k];
    var p := Pow(b, i);
    assert now[k..] == [now[k]] + now[k + 1..] && was[k..] == [was[k]] + was[k + 1..];
    NumCons(b, now[k], now[k + 1..]);
    NumCons(b, was[k], was[k + 1..]);
    PowNext(b, i);
    Column(b, n, p, carry, mul, was[k]);
    MulDistrib(was[k] * p, Num(b, was[k + 1..]), mul);
  }

  /** Leading zeros in the buffer count for nothing. */
  lemma NumSuffix(b: nat, s: seq<nat>, k: nat)
    requires k <= |s| && forall j | 0 <= j < k :: s[j] == 0
    ensures Num(b, s) == Num(b, s[k..])
  {
    hide Num;
    assert s == Zeros(k) + s[k..];
    NumZeros(b, k, s[k..]);
  }

  /**
   buf = buf * mul + carry, from the last digit up, as long as there is a carry or a
   used digit. `used` is the number of digits in use, before and after.
   */
  method MulAdd(buf: array<nat>, b: nat, mul: nat, carry0: nat, length: nat) returns (carry: nat, used: nat)
    requires 1 < b && 0 < mul && Below(b, buf[..]) && length <= buf.Length && Tight(b, Num(b, buf[..]), length)
    requires forall k | 0 <= k < buf.Length - length :: buf[k] == 0
    modifies buf
    ensures Below(b, buf[..]) && length <= used <= buf.Length
    ensures forall k | 0 <= k < buf.Length - used :: buf[k] == 0
    ensures Mul(mul, old(Num(b, buf[..]))) + carry0 < Pow(b, buf.Length) ==>
      carry == 0 && Num(b, buf[..]) == Mul(mul, old(Num(b, buf[..]))) + carry0 && Tight(b, Num(b, buf[..]), used)
  {
    hide Num, Pow, Mul, Quo, Rem;
    ghost var was, now := buf[..], buf[..];
    var size := buf.Length;
    carry := carry0;
    used := 0;
    assert now[size..] == [];
    NothingYet(b, mul, carry0);
    while (carry != 0 || used < length) && used < size
      invariant 0 <= used <= size == |now| && buf[..] == now && Below(b, now)
      invariant forall k | 0 <= k < size - used :: now[k] == was[k]
      invariant Num(b, now[size - used..]) + Mul(carry, Pow(b, used)) == Mul(mul, Num(b, was[size - used..])) + carry0
      invariant length < used ==> carry != 0 || now[size - used] != 0
      decreases size - used
    {
      var k := size - 1 - used;
      var n := carry + Mul(mul, buf[k]);
      buf[k] := Rem(n, b);
      ghost var next := now[k := Rem(n, b)];
      assert next[k + 1..] == now[k + 1..];
      assert buf[..] == next;
      ColumnSum(b, next, was, used, carry, mul, carry0);
      if length <= used { QuotientOrRest(carry, mul, b); }
      now := next;
      carry := Quo(n, b);
      used := used + 1;
    }
    NumSuffix(b, now, size - used);
    NumSuffix(b, was, size - used);
    if Mul(mul, Num(b, was)) + carry0 < Pow(b, size) {
      Settled(b, now, was, length, used, carry, mul, carry0);
    }
  }

  lemma NothingYet(b: nat, mul: nat, carry: nat)
    ensures Num(b, []) + Mul(carry, Pow(b, 0)) == Mul(mul, Num(b, [])) + carry
  {}

  /** Beyond the digits in use, a carry that goes in shows in the digit or in the next carry. */
  lemma QuotientOrRest(carry: nat, mul: nat, b: nat)
    requires 0 < b && carry != 0
    ensures var n := carry + Mul(mul, 0); Quo(n, b) != 0 || Rem(n, b) != 0
  {
    DivModLaw(carry, b);
    assert mul * 0 == 0;
  }

  /** A result that fits leaves no carry, and its length is exact. */
  lemma Settled(b: nat, now: seq<nat>, was: seq<nat>, length: nat, used: nat, carry: nat, mul: nat, carry0: nat)
    requires 1 < b && 0 < mul && Below(b, now) && length <= used <= |now| && Tight(b, Num(b, was), length)
    requires (carry == 0 && length <= used) || used == |now|
    requires forall k | 0 <= k < |now| - used :: now[k] == 0
    requires Num(b, now) + Mul(carry, Pow(b, used)) == Mul(mul, Num(b, was)) + carry0 < Pow(b, |now|)
    requires length < used ==> carry != 0 || now[|now| - used] != 0
    ensures carry == 0 && Mul(carry, Pow(b, used)) == 0 && Tight(b, Num(b, now), used)
  {
    hide Num, Pow;
    if carry != 0 { MulMono(1, carry, Pow(b, used)); }
    assert 0 * Pow(b, used) == 0;
    var low := now[|now| - used..];
    NumSuffix(b, now, |now| - used);
    NumBound(b, low);
    if length < used {
      NumLead(b, low);
    } else {
      MulMono(1, mul, Num(b, was));
    }
  }

  // -------------------------------------------------------------------- encoding

  /** The main loop of EncodeBase58: the digits in use of the buffer are the same number without leading zeros. */
  method ToBase58(rest: seq<nat>) returns (b58: array<nat>, length: nat)
    requires Below(256, rest)
    ensures fresh(b58) && length <= b58.Length && Below(58, b58[..])
    ensures Canonical(b58[b58.Length - length..]) && Num(58, b58[b58.Length - length..]) == Num(256, rest)
  {
    hide Num, Pow, Tight;
    var size := |rest| * 138 / 100 + 1;
    b58 := new nat[size](i => 0);
    length := 0;
    EncodeRoom(|rest|);
    StartBuffer(58, b58[..]);
    NumOne(256, 0);
    for j := 0 to |rest|
      invariant fresh(b58) && length <= b58.Length == size && Below(58, b58[..])
      invariant forall k | 0 <= k < size - length :: b58[k] == 0
      invariant Num(58, b58[..]) == Num(256, rest[..j]) && Tight(58, Num(58, b58[..]), length)
    {
      NumNext(256, rest, j);
      InRoom(256, rest, j + 1, Pow(58, size));
      var carry;
      carry, length := MulAdd(b58, 58, 256, rest[j], length);
      assert carry == 0;
    }
    assert rest[..|rest|] == rest;
    LeadDigit(58, b58[..], length);
  }

  /** The encoding is the text of the same number in base 58, with the same leading zeros. */
  method EncodeBase58(bytes: seq<nat>) returns (str: string, ghost t: seq<nat>)
    requires Below(256, bytes)
    ensures Below(58, t) && Same(256, bytes, 58, t) && str == Text(t)
  {
    hide Num, Pow, LeadingZeros, ToChar, Same;
    var zeroes := 0;
    while zeroes < |bytes| && bytes[zeroes] == 0
      invariant 0 <= zeroes <= |bytes| && forall j | 0 <= j < zeroes :: bytes[j] == 0
    {
      zeroes := zeroes + 1;
    }
    var b58, length := ToBase58(bytes[zeroes..]);
    var it := SkipZeros(b58, b58.Length - length);
    ghost var digits := b58[b58.Length - length..];
    assert it == b58.Length - length by { assert length > 0 ==> digits[0] == b58[b58.Length - length]; }
    t := Zeros(zeroes) + digits;
    EncodedSame(bytes, zeroes, digits);
    str := seq(zeroes, i => '1');
    OneIsZero();
    for i := it to b58.Length
      invariant Below(58, t) && str == Text(t[..zeroes + i - it])
    {
      assert t[zeroes + i - it] == b58[i];
      str := str + [ToChar(b58[i])];
    }
    assert t[..|t|] == t;
  }

  method SkipZeros(buf: array<nat>, from: nat) returns (it: nat)
    requires from <= buf.Length
    ensures from <= it <= buf.Length && (forall k | from <= k < it :: buf[k] == 0) && (it < buf.Length ==> buf[it] != 0)
  {
    it := from;
    while it < buf.Length && buf[it] == 0
      invariant from <= it <= buf.Length && forall k | from <= k < it :: buf[k] == 0
    {
      it := it + 1;
    }
  }

  lemma OneIsZero() ensures ToChar(0) == '1' {}

  lemma StartBuffer(b: nat, buf: seq<nat>)
    requires 1 < b && forall k | 0 <= k < |buf| :: buf[k] == 0
    ensures Num(b, buf) == 0 && Tight(b, Num(b, buf), 0)
  {
    NumSuffix(b, buf, |buf|);
    NumOne(b, 0);
  }

  /** A prefix of the input is below the room for all of it. */
  lemma InRoom(b: nat, s: seq<nat>, j: nat, room: nat)
    requires 0 < b && Below(b, s) && j <= |s| && Pow(b, |s|) <= room
    ensures Num(b, s[..j]) < room
  {
    hide Num, Pow;
    NumBound(b, s[..j]);
    PowMono(b, j, |s|);
  }

  /** The buffer's digits in use start with a nonzero one. */
  lemma LeadDigit(b: nat, buf: seq<nat>, length: nat)
    requires 1 < b && Below(b, buf) && length <= |buf| && Tight(b, Num(b, buf), length)
    requires forall k | 0 <= k < |buf| - length :: buf[k] == 0
    ensures Canonical(buf[|buf| - length..]) && Num(b, buf[|buf| - length..]) == Num(b, buf)
  {
    hide Num, Pow;
    var low := buf[|buf| - length..];
    NumSuffix(b, buf, |buf| - length);
    if low != [] && low[0] == 0 {
      NumSuffix(b, low, 1);
      NumBound(b, low[1..]);
    }
  }

  lemma EncodedSame(bytes: seq<nat>, zeroes: nat, digits: seq<nat>)
    requires zeroes <= |bytes| && (forall j | 0 <= j < zeroes :: bytes[j] == 0) && Canonical(bytes[zeroes..])
    requires Canonical(digits) && Num(58, digits) == Num(256, bytes[zeroes..])
    ensures Same(256, bytes, 58, Zeros(zeroes) + digits)
  {
    hide Num;
    assert bytes == Zeros(zeroes) + bytes[zeroes..];
    LeadingZerosOf(zeroes, bytes[zeroes..]);
    LeadingZerosOf(zeroes, digits);
    NumZeros(58, zeroes, digits);
    NumZeros(256, zeroes, bytes[zeroes..]);
  }

  // -------------------------------------------------------------------- decoding

  /** IsSpace */
  predicate IsSpace(c: char) { c == ' ' || '\t' <= c <= '\r' }

  /** The digits of a text, if every character is one. */
  function Read(s: string): (r: Option<seq<nat>>)
    ensures r.Some? ==> |r.value| == |s| && Below(58, r.value)
  {
    if s == [] then Some([])
    else
      match Read(s[..|s| - 1])
      case None => None
      case Some(t) => match FromChar(s[|s| - 1]) { case None => None case Some(d) => Some(t + [d]) }
  }

  /** The end of the run of characters from `from` on that are, or are not, spaces. */
  function RunEnd(str: string, from: nat, space: bool): (r: nat)
    requires from <= |str|
    ensures from <= r <= |str| && (forall i | from <= i < r :: IsSpace(str[i]) == space)
    ensures (r < |str| ==> IsSpace(str[r]) != space)
    decreases |str| - from
  {
    if from == |str| || IsSpace(str[from]) != space then from else RunEnd(str, from + 1, space)
  }

  /** The text between leading and trailing spaces, if there is only one. */
  function Body(str: string): Option<string> {
    if '\0' in str then None
    else
      var a := RunEnd(str, 0, true);
      var b := RunEnd(str, a, false);
      if RunEnd(str, b, true) == |str| then Some(str[a..b]) else None
  }

  lemma SpaceExactly(c: char)
    ensures IsSpace(c) <==> c as int in {9, 10, 11, 12, 13, 32}
  {}

  lemma {:induction false} RunIs(str: string, from: nat, space: bool, end: nat)
    requires from <= end <= |str| && (forall i | from <= i < end :: IsSpace(str[i]) == space)
    requires end < |str| ==> IsSpace(str[end]) != space
    ensures RunEnd(str, from, space) == end
    decreases |str| - from
  {
    hide IsSpace;
    if from < end { RunIs(str, from + 1, space, end); }
  }

  /** A text between spaces, without any inside. */
  predicate Padded(str: string, m: string) {
    exists a, b | 0 <= a <= b <= |str| :: str[a..b] == m && Surrounded(str, a, b)
  }

  predicate Surrounded(str: string, a: nat, b: nat) {
    forall i | 0 <= i < |str| :: IsSpace(str[i]) <==> i < a || b <= i
  }

  /** Which part of a string is decoded. */
  lemma BodyExactly(str: string, m: string)
    ensures Body(str) == Some(m) <==> '\0' !in str && Padded(str, m)
  {
    hide IsSpace;
    if '\0' !in str {
      var a := RunEnd(str, 0, true);
      var b := RunEnd(str, a, false);
      if Body(str) == Some(m) {
        assert str[a..b] == m && Surrounded(str, a, b);
      }
      if Padded(str, m) {
        var x, y :| 0 <= x <= y <= |str| && str[x..y] == m && Surrounded(str, x, y);
        if x < y {
          RunIs(str, 0, true, x);
          RunIs(str, x, false, y);
          RunIs(str, y, true, |str|);
        } else {
          RunIs(str, 0, true, |str|);
        }
      }
    }
  }

  method ScanRun(str: string, from: nat, space: bool) returns (r: nat)
    requires from <= |str|
    ensures r == RunEnd(str, from, space)
  {
    hide IsSpace;
    r := from;
    while r < |str| && IsSpace(str[r]) == space
      invariant from <= r <= |str| && RunEnd(str, from, space) == RunEnd(str, r, space)
    {
      r := r + 1;
    }
  }

  method HasNull(str: string) returns (r: bool)
    ensures r <==> '\0' in str
  {
    for i := 0 to |str|
      invariant '\0' !in str[..i]
    {
      if str[i] == '\0' { return true; }
    }
    return false;
  }

  /** What DecodeBase58 answers for a text with digits t, when at most max bytes are wanted. */
  ghost predicate Answers(t: seq<nat>, max: nat, ok: bool, out: seq<nat>) {
    if ok then Below(256, out) && Same(256, out, 58, t) && |out| <= max
    else forall o: seq<nat> | Below(256, o) && Same(256, o, 58, t) :: |o| > max
  }

  datatype Status = Done | BadChar | TooLong

  /**
   The main loop of DecodeBase58 over the characters from the first that is not '1'
   to the next space or the end; n characters are left in the string. TooLong is
   noticed after p of the digits, when those already need too many bytes.
   */
  method ToBase256(body: string, n: nat, zeroes: nat, max: nat) returns (s: Status, b256: array<nat>, length: nat,
      ghost p: nat)
    requires |body| <= n
    ensures fresh(b256) && length <= b256.Length && Below(256, b256[..]) && p <= |body|
    ensures s == BadChar ==> Read(body).None?
    ensures s != BadChar ==> Read(body[..p]).Some? && Tight(256, Num(58, Read(body[..p]).value), length)
    ensures s == TooLong ==> max < length + zeroes
    ensures s == Done ==>
      && p == |body| && (body != [] ==> length + zeroes <= max)
      && Canonical(b256[b256.Length - length..])
      && Num(256, b256[b256.Length - length..]) == Num(58, Read(body[..p]).value)
  {
    hide Num, Pow, Tight, FromChar, Read, Mul;
    var size := n * 733 / 1000 + 1;
    b256 := new nat[size](i => 0);
    length, p := 0, 0;
    ghost var t: seq<nat> := [];
    DecodeRoom(n);
    StartBuffer(256, b256[..]);
    NumOne(58, 0);
    ReadNothing(body);
    for i := 0 to |body|
      invariant fresh(b256) && p == i && length <= b256.Length == size && Below(256, b256[..])
      invariant Read(body[..i]) == Some(t)
      invariant forall k | 0 <= k < size - length :: b256[k] == 0
      invariant Num(256, b256[..]) == Num(58, t) && Tight(256, Num(256, b256[..]), length)
      invariant 0 < i ==> length + zeroes <= max
    {
      var d := FromChar(body[i]);
      ReadNext(body, i);
      if d.None? {
        ReadStuck(body, i + 1, |body|);
        assert body[..|body|] == body;
        return BadChar, b256, length, p;
      }
      NextDigit(t, d.value, n, size);
      t := t + [d.value];
      var carry;
      carry, length := MulAdd(b256, 256, 58, d.value, length);
      assert carry == 0;
      p := i + 1;
      if length + zeroes > max { return TooLong, b256, length, p; }
    }
    LeadDigit(256, b256[..], length);
    return Done, b256, length, p;
  }

  lemma ReadNothing(s: string)
    ensures Read(s[..0]) == Some([])
  {}

  lemma NextDigit(t: seq<nat>, d: nat, n: nat, size: nat)
    requires Below(58, t) && d < 58 && |t| + 1 <= n && Pow(58, n) <= Pow(256, size)
    ensures Num(58, t + [d]) == Mul(58, Num(58, t)) + d < Pow(256, size)
  {
    hide Pow, Num;
    NumNext(58, t + [d], |t|);
    assert (t + [d])[..|t|] == t && (t + [d])[..|t| + 1] == t + [d];
    RoomFor(t + [d], n, size);
  }

  lemma RoomFor(t: seq<nat>, n: nat, size: nat)
    requires Below(58, t) && |t| <= n && Pow(58, n) <= Pow(256, size)
    ensures Num(58, t) < Pow(256, size)
  {
    hide Num, Pow;
    NumBound(58, t);
    PowMono(58, |t|, n);
  }

  lemma ReadNext(s: string, i: nat)
    requires i < |s|
    ensures Read(s[..i + 1]) == match Read(s[..i]) {
      case None => None
      case Some(t) => match FromChar(s[i]) { case None => None case Some(d) => Some(t + [d]) } }
  {
    assert s[..i + 1][..i] == s[..i];
  }

  lemma {:induction false} ReadStuck(s: string, i: nat, n: nat)
    requires i <= n <= |s| && Read(s[..i]).None?
    ensures Read(s[..n]).None?
  {
    if i < n { ReadStuck(s, i, n - 1); ReadNext(s, n - 1); }
  }

  /** A run of '1's reads as zeros. */
  lemma {:induction false} ReadOnes(s: string, z: nat)
    requires z <= |s| && forall i | 0 <= i < z :: s[i] == '1'
    ensures Read(s) == match Read(s[z..]) { case None => None case Some(t) => Some(Zeros(z) + t) }
  {
    if |s| == z {
      AllOnes(s);
      assert s[z..] == [];
      assert Zeros(z) + [] == Zeros(z);
    } else {
      var n := |s| - 1;
      ReadOnes(s[..n], z);
      assert s[z..][..n - z] == s[..n][z..] && s[z..][n - z] == s[n];
      if Read(s[..n]).Some? && FromChar(s[n]).Some? {
        var t, d := Read(s[..n][z..]).value, FromChar(s[n]).value;
        assert Zeros(z) + t + [d] == Zeros(z) + (t + [d]);
      }
    }
  }

  lemma {:induction false} AllOnes(s: string)
    requires forall i | 0 <= i < |s| :: s[i] == '1'
    ensures Read(s) == Some(Zeros(|s|))
  {
    if s != [] {
      AllOnes(s[..|s| - 1]);
      assert Zeros(|s|) == Zeros(|s| - 1) + [0];
    }
  }

  lemma {:induction false} ReadAt(s: string, i: nat)
    requires Read(s).Some? && i < |s|
    ensures FromChar(s[i]) == Some(Read(s).value[i])
  {
    if i < |s| - 1 { ReadAt(s[..|s| - 1], i); }
  }

  /** After the '1's the digits start with a nonzero one. */
  lemma BodyCanonical(body: string)
    requires Read(body).Some? && (body != [] ==> body[0] != '1')
    ensures Canonical(Read(body).value)
  {
    if body != [] { ReadAt(body, 0); }
  }

  /** More than max zeros leave no answer of at most max bytes. */
  lemma TooManyZeros(t: seq<nat>, z: nat, max: nat)
    requires max < z <= |t| && forall i | 0 <= i < z :: t[i] == 0
    ensures Answers(t, max, false, [])
  {
    hide Num;
    ZerosCount(t, z);
  }

  lemma {:induction false} ZerosCount(t: seq<nat>, z: nat)
    requires z <= |t| && forall i | 0 <= i < z :: t[i] == 0
    ensures z <= LeadingZeros(t)
  {
    if z > 0 { ZerosCount(t[1..], z - 1); }
  }

  lemma {:induction false} PrefixLe(b: nat, t: seq<nat>, p: nat, n: nat)
    requires 0 < b && p <= n <= |t|
    ensures Num(b, t[..p]) <= Num(b, t[..n])
  {
    hide Num;
    if p < n {
      PrefixLe(b, t, p, n - 1);
      NumNext(b, t, n - 1);
      MulMono(1, b, Num(b, t[..n - 1]));
    }
  }

  /** Digits whose first p already need `length` bytes after z zeros need at least as many in all. */
  lemma TooManyBytes(tb: seq<nat>, z: nat, p: nat, length: nat, max: nat)
    requires Canonical(tb) && p <= |tb| && Tight(256, Num(58, tb[..p]), length) && max < length + z
    ensures Answers(Zeros(z) + tb, max, false, [])
  {
    hide Num, Pow, LeadingZeros;
    var t := Zeros(z) + tb;
    LeadingZerosOf(z, tb);
    NumZeros(58, z, tb);
    PrefixLe(58, tb, p, |tb|);
    assert tb[..|tb|] == tb;
    forall o: seq<nat> | Below(256, o) && Same(256, o, 58, t) ensures |o| > max {
      SplitZeros(o);
      NumZeros(256, z, o[z..]);
      NumBound(256, o[z..]);
      if length > 0 && |o[z..]| <= length - 1 { PowMono(256, |o[z..]|, length - 1); }
    }
  }

  lemma RightAnswer(tb: seq<nat>, z: nat, digits: seq<nat>, max: nat)
    requires Canonical(tb) && Canonical(digits) && Below(256, digits) && Num(256, digits) == Num(58, tb)
    requires z + |digits| <= max
    ensures Answers(Zeros(z) + tb, max, true, Zeros(z) + digits)
  {
    hide Num, LeadingZeros;
    LeadingZerosOf(z, tb);
    LeadingZerosOf(z, digits);
    NumZeros(58, z, tb);
    NumZeros(256, z, digits);
  }

  /** Counts the '1's from a on; stops as soon as there are more than max. */
  method CountOnes(str: string, a: nat, max: nat) returns (zeroes: nat)
    requires a <= |str|
    ensures a + zeroes <= |str| && (forall i | a <= i < a + zeroes :: str[i] == '1')
    ensures zeroes <= max ==> a + zeroes < |str| ==> str[a + zeroes] != '1'
  {
    zeroes := 0;
    while a + zeroes < |str| && str[a + zeroes] == '1'
      invariant a + zeroes <= |str| && zeroes <= max && (forall i | a <= i < a + zeroes :: str[i] == '1')
    {
      zeroes := zeroes + 1;
      if zeroes > max { return; }
    }
  }

  /**
   A string with one word of base 58 digits decodes to the bytes of the same number, if
   they are few enough; any other is refused.
   */
  method DecodeBase58(str: string, max: nat) returns (ok: bool, out: seq<nat>)
    ensures Body(str).None? || Read(Body(str).value).None? ==> !ok
    ensures Body(str).Some? && Read(Body(str).value).Some? ==> Answers(Read(Body(str).value).value, max, ok, out)
  {
    hide Num, Pow, Tight, IsSpace, FromChar, Read, Answers;
    out := [];
    var nul := HasNull(str);
    if nul { return false, []; }
    var a := ScanRun(str, 0, true);
    var e := ScanRun(str, a, false);
    var zeroes := CountOnes(str, a, max);
    OnesAreText(str, a, zeroes, e);
    ghost var s := str[a..e];
    ReadOnes(s, zeroes);
    if zeroes > max {
      if Read(s).Some? { TooManyZeros(Read(s).value, zeroes, max); }
      return false, [];
    }
    var body := str[a + zeroes..e];
    assert s[zeroes..] == body;
    var st, b256, length;
    ghost var p;
    st, b256, length, p := ToBase256(body, |str| - a - zeroes, zeroes, max);
    if st == BadChar { return false, []; }
    if Read(body).Some? {
      BodyCanonical(body);
      ReadPrefix(body, p);
    }
    if st == TooLong {
      if Read(body).Some? { TooManyBytes(Read(body).value, zeroes, p, length, max); }
      return false, [];
    }
    assert body[..p] == body;
    var c := ScanRun(str, e, true);
    if c != |str| { return false, []; }
    out := Zeros(zeroes) + b256[b256.Length - length..];
    NoDigits(body, length);
    RightAnswer(Read(body).value, zeroes, b256[b256.Length - length..], max);
    return true, out;
  }

  lemma OnesAreText(str: string, a: nat, zeroes: nat, e: nat)
    requires a <= |str| && e == RunEnd(str, a, false) && a + zeroes <= |str|
    requires forall i | a <= i < a + zeroes :: str[i] == '1'
    ensures a + zeroes <= e
  {}

  lemma {:induction false} ReadPrefix(s: string, p: nat)
    requires Read(s).Some? && p <= |s|
    ensures Read(s[..p]) == Some(Read(s).value[..p])
    decreases |s| - p
  {
    hide FromChar, Read;
    var v := Read(s).value;
    if p < |s| {
      ReadPrefix(s, p + 1);
      ReadNext(s, p);
      var t := Read(s[..p]).value;
      assert v[..p + 1][..p] == v[..p] && v[..p + 1][..|t|] == t;
    } else {
      assert s[..p] == s && Read(s).value[..p] == Read(s).value;
    }
  }

  lemma NoDigits(body: string, length: nat)
    requires Read(body).Some? && Tight(256, Num(58, Read(body).value), length)
    ensures body == [] ==> length == 0
  {
    hide Pow;
  }

  // ------------------------------------------------------------------ round trips

  lemma {:induction false} ReadText(t: seq<nat>)
    requires Below(58, t)
    ensures Read(Text(t)) == Some(t)
  {
    hide ToChar, FromChar;
    if t != [] {
      var n := |t| - 1;
      ReadText(t[..n]);
      assert Text(t)[..n] == Text(t[..n]);
      AlphabetInverse(t[n], '1');
      assert t == t[..n] + [t[n]];
    }
  }

  lemma {:induction false} TextRead(s: string)
    requires Read(s).Some?
    ensures Text(Read(s).value) == s
  {
    hide ToChar, FromChar;
    if s != [] {
      TextRead(s[..|s| - 1]);
      AlphabetInverse(0, s[|s| - 1]);
    }
  }

  /** Digits are neither spaces nor null: an encoded string is one word. */
  lemma TextIsWord(t: seq<nat>)
    requires Below(58, t)
    ensures Body(Text(t)) == Some(Text(t))
  {
    var s := Text(t);
    forall i | 0 <= i < |s| ensures !IsSpace(s[i]) && s[i] != '\0' {}
    assert RunEnd(s, 0, true) == 0;
    assert RunEnd(s, 0, false) == |s|;
    assert s[0..|s|] == s;
  }

  /** What decoding answers for the text of some bytes: these bytes, exactly when that many are allowed. */
  lemma DecodeEncode(bytes: seq<nat>, t: seq<nat>, max: nat, ok: bool, out: seq<nat>)
    requires Below(256, bytes) && Below(58, t) && Same(256, bytes, 58, t)
    requires Body(Text(t)).Some? && Read(Body(Text(t)).value).Some? ==> Answers(Read(Body(Text(t)).value).value, max,
        ok, out)
    ensures (ok <==> |bytes| <= max) && (ok ==> out == bytes)
  {
    hide Same, Read, Body, Text;
    TextIsWord(t);
    ReadText(t);
    if ok { SameUnique(256, bytes, out, 58, t); }
  }

  /** DecodeBase58(EncodeBase58(bytes)) is bytes, exactly when that many are allowed. */
  method EncodeThenDecode(bytes: seq<nat>, max: nat) returns (ok: bool, out: seq<nat>)
    requires Below(256, bytes)
    ensures (ok <==> |bytes| <= max) && (ok ==> out == bytes)
  {
    hide Same, Read, Body, Text, Answers;
    var str, t := EncodeBase58(bytes);
    ok, out := DecodeBase58(str, max);
    DecodeEncode(bytes, t, max, ok, out);
  }

  /** What encoding gives for the bytes of a word: the word. */
  lemma EncodeDecode(word: string, max: nat, out: seq<nat>, t: seq<nat>)
    requires Read(word).Some? && Answers(Read(word).value, max, true, out)
    requires Below(58, t) && Same(256, out, 58, t)
    ensures Text(t) == word
  {
    hide Num, LeadingZeros, Read, Text;
    SameUnique(58, Read(word).value, t, 256, out);
    TextRead(word);
  }

  /** EncodeBase58 of what DecodeBase58 accepts is the string without the spaces around it. */
  method DecodeThenEncode(str: string, max: nat) returns (ok: bool, back: string)
    ensures ok ==> Body(str) == Some(back)
  {
    hide Same, Read, Body, Text;
    var out;
    ok, out := DecodeBase58(str, max);
    if !ok { return false, []; }
    ghost var t;
    back, t := EncodeBase58(out);
    EncodeDecode(Body(str).value, max, out, t);
  }
}
