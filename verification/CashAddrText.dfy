/**
 CashAddr strings (src/cashaddr.cpp): a prefix, a colon, and the payload with its
 checksum in a 32-character alphabet. Decoding undoes encoding, and accepts
 nothing that encoding would not have produced.
 */
module CashAddrText {

  import opened CashAddr
  import opened Basics

  // -------------------------------------------------------------------- alphabet

  /** CHARSET */
  function ToChar(d: Sym): char {
    if d == 0 then 'f' else if d == 1 then 'p' else if d == 2 then 'z' else if d == 3 then 'r' else
    if d == 4 then 'y' else if d == 5 then '9' else if d == 6 then 'x' else if d == 7 then '8' else
    if d == 8 then 'g' else if d == 9 then 'q' else if d == 10 then '2' else if d == 11 then 't' else
    if d == 12 then 'v' else if d == 13 then 'd' else if d == 14 then 'w' else if d == 15 then '0' else
    if d == 16 then 's' else if d == 17 then '3' else if d == 18 then 'j' else if d == 19 then 'n' else
    if d == 20 then '5' else if d == 21 then '4' else if d == 22 then 'k' else if d == 23 then 'h' else
    if d == 24 then 'c' else if d == 25 then 'e' else if d == 26 then '6' else if d == 27 then 'm' else
    if d == 28 then 'u' else if d == 29 then 'a' else if d == 30 then '7' else 'l'
  }

  function FromLower(c: char): Option<Sym> {
    if c == 'f' then Some(0) else if c == 'p' then Some(1) else if c == 'z' then Some(2) else
    if c == 'r' then Some(3) else if c == 'y' then Some(4) else if c == '9' then Some(5) else
    if c == 'x' then Some(6) else if c == '8' then Some(7) else if c == 'g' then Some(8) else
    if c == 'q' then Some(9) else if c == '2' then Some(10) else if c == 't' then Some(11) else
    if c == 'v' then Some(12) else if c == 'd' then Some(13) else if c == 'w' then Some(14) else
    if c == '0' then Some(15) else if c == 's' then Some(16) else if c == '3' then Some(17) else
    if c == 'j' then Some(18) else if c == 'n' then Some(19) else if c == '5' then Some(20) else
    if c == '4' then Some(21) else if c == 'k' then Some(22) else if c == 'h' then Some(23) else
    if c == 'c' then Some(24) else if c == 'e' then Some(25) else if c == '6' then Some(26) else
    if c == 'm' then Some(27) else if c == 'u' then Some(28) else if c == 'a' then Some(29) else
    if c == '7' then Some(30) else if c == 'l' then Some(31) else
    None
  }

  predicate IsLower(c: char) { 'a' <= c <= 'z' }
  predicate IsUpper(c: char) { 'A' <= c <= 'Z' }
  predicate IsDigit(c: char) { '0' <= c <= '9' }

  /** CHARSET_REV, which knows the letters in both cases. */
  function FromChar(c: char): Option<Sym> {
    if IsUpper(c) then FromLower((c as int + 32) as char) else FromLower(c)
  }

  /** The characters of the alphabet are lower-case letters and digits, one for each symbol. */
  lemma AlphabetRoundTrip(d: Sym)
    ensures FromLower(ToChar(d)) == Some(d) && (IsLower(ToChar(d)) || IsDigit(ToChar(d)))
  {
    if d == 0 {} else if d == 1 {} else if d == 2 {} else if d == 3 {} else if d == 4 {} else if d == 5 {} else
    if d == 6 {} else if d == 7 {} else if d == 8 {} else if d == 9 {} else if d == 10 {} else if d == 11 {} else
    if d == 12 {} else if d == 13 {} else if d == 14 {} else if d == 15 {} else if d == 16 {} else if d == 17 {} else
    if d == 18 {} else if d == 19 {} else if d == 20 {} else if d == 21 {} else if d == 22 {} else if d == 23 {} else
    if d == 24 {} else if d == 25 {} else if d == 26 {} else if d == 27 {} else if d == 28 {} else if d == 29 {} else
    if d == 30 {} else {}
  }

  const CHARSET: string := "fpzry9x8gq2tvdw0s3jn54khce6mua7l"

  lemma AlphabetIs(d: Sym)
    ensures d as nat < |CHARSET| && ToChar(d) == CHARSET[d as nat]
  {
    if d == 0 {} else if d == 1 {} else if d == 2 {} else if d == 3 {} else if d == 4 {} else if d == 5 {} else
    if d == 6 {} else if d == 7 {} else if d == 8 {} else if d == 9 {} else if d == 10 {} else if d == 11 {} else
    if d == 12 {} else if d == 13 {} else if d == 14 {} else if d == 15 {} else if d == 16 {} else if d == 17 {} else
    if d == 18 {} else if d == 19 {} else if d == 20 {} else if d == 21 {} else if d == 22 {} else if d == 23 {} else
    if d == 24 {} else if d == 25 {} else if d == 26 {} else if d == 27 {} else if d == 28 {} else if d == 29 {} else
    if d == 30 {} else {}
  }

  lemma AlphabetInverse(c: char)
    ensures FromLower(c).Some? ==> ToChar(FromLower(c).value) == c
  {
    if FromLower(c).Some? {
      var d := FromLower(c).value;
      if d == 0 {} else if d == 1 {} else if d == 2 {} else if d == 3 {} else if d == 4 {} else if d == 5 {} else
      if d == 6 {} else if d == 7 {} else if d == 8 {} else if d == 9 {} else if d == 10 {} else if d == 11 {} else
      if d == 12 {} else if d == 13 {} else if d == 14 {} else if d == 15 {} else if d == 16 {} else if d == 17 {} else
      if d == 18 {} else if d == 19 {} else if d == 20 {} else if d == 21 {} else if d == 22 {} else if d == 23 {} else
      if d == 24 {} else if d == 25 {} else if d == 26 {} else if d == 27 {} else if d == 28 {} else if d == 29 {} else
      if d == 30 {} else {}
    }
  }

  /** c | 0x20 */
  function LowerCase(c: char): char
    requires c as int < 256
  {
    if c as int / 32 % 2 == 1 then c else (c as int + 32) as char
  }

  // ------------------------------------------------------------- words and texts

  /** prefix[i] & 0x1f */
  function Low5(c: char): Sym { ((c as int) % 32) as Sym }

  /** The prefix as checksum symbols: the low five bits of each character, and a zero. */
  function Expand(prefix: string): (r: seq<Sym>)
    ensures |r| == |prefix| + 1
  {
    seq(|prefix| + 1, i requires 0 <= i <= |prefix| => if i < |prefix| then Low5(prefix[i]) else 0)
  }

  function Chars(v: seq<Sym>): (r: string)
    ensures |r| == |v|
  {
    seq(|v|, i requires 0 <= i < |v| => ToChar(v[i]))
  }

  function Encoded(prefix: string, payload: seq<Sym>): string {
    prefix + ":" + Chars(payload + Checksum(Expand(prefix) + payload))
  }

  method ExpandPrefix(prefix: string) returns (r: seq<Sym>)
    ensures r == Expand(prefix)
  {
    hide Low5;
    r := [];
    for i := 0 to |prefix|
      invariant |r| == i && forall j | 0 <= j < i :: r[j] == Low5(prefix[j])
    {
      r := r + [Low5(prefix[i])];
    }
    r := r + [0];
  }

  method VerifyChecksum(prefix: string, payload: seq<Sym>) returns (ok: bool)
    ensures ok <==> IsValid(Expand(prefix) + payload)
  {
    hide Fold, Xor, Low5;
    var e := ExpandPrefix(prefix);
    var c := PolyMod(e + payload);
    ok := c == 0;
    XorLaws(Fold(1, e + payload), 1, 0, 0);
    XorLaws(1, 0, 0, 0);
  }

  method CreateChecksum(prefix: string, payload: seq<Sym>) returns (r: seq<Sym>)
    ensures r == Checksum(Expand(prefix) + payload)
  {
    hide Fold, Xor, Low5, Group;
    var e := ExpandPrefix(prefix);
    var mod := PolyMod(e + payload + Zeros(8));
    r := [];
    for i := 0 to 8
      invariant |r| == i && forall j | 0 <= j < i :: r[j] == Group(mod, j)
    {
      r := r + [Group(mod, i)];
    }
    assert r == Groups(mod);
  }

  method Encode(prefix: string, payload: seq<Sym>) returns (r: string)
    ensures r == Encoded(prefix, payload)
  {
    hide Fold, Xor, Low5, Group, ToChar, Checksum, Expand;
    var checksum := CreateChecksum(prefix, payload);
    var combined := payload + checksum;
    r := prefix + ":";
    for i := 0 to |combined|
      invariant r == prefix + ":" + Chars(combined)[..i]
    {
      r := r + [ToChar(combined[i])];
      assert Chars(combined)[..i + 1] == Chars(combined)[..i] + [ToChar(combined[i])];
    }
    assert Chars(combined)[..|combined|] == Chars(combined);
  }

  // -------------------------------------------------------------------- decoding

  /** What the first loop of Decode has seen. */
  datatype Scan = Scan(lower: bool, upper: bool, hasNumber: bool, prefixSize: nat)

  function ScanChar(s: Scan, c: char, i: nat): Option<Scan> {
    if IsLower(c) then Some(s.(lower := true))
    else if IsUpper(c) then Some(s.(upper := true))
    else if IsDigit(c) then Some(s.(hasNumber := true))
    else if c == ':' && !s.hasNumber && i != 0 && s.prefixSize == 0 then Some(s.(prefixSize := i))
    else None
  }

  function ScanTo(str: string, n: nat): Option<Scan>
    requires n <= |str|
  {
    if n == 0 then Some(Scan(false, false, false, 0))
    else match ScanTo(str, n - 1)
      case None => None
      case Some(s) => ScanChar(s, str[n - 1], n - 1)
  }

  function Symbols(s: string): Option<seq<Sym>> {
    if s == [] then Some([])
    else match Symbols(s[..|s| - 1])
      case None => None
      case Some(v) => match FromChar(s[|s| - 1]) { case None => None case Some(d) => Some(v + [d]) }
  }

  function LowerAll(s: string): (r: string)
    requires forall i | 0 <= i < |s| :: s[i] as int < 256
    ensures |r| == |s|
  {
    seq(|s|, i requires 0 <= i < |s| => LowerCase(s[i]))
  }

  /** Overrun: the checksum of fewer than eight symbols holds, and the source steps back before their start. */
  datatype Decoded = Rejected | Address(prefix: string, data: seq<Sym>) | Overrun

  predicate Bytes(s: string) { forall i | 0 <= i < |s| :: s[i] as int < 256 }

  function DecodedBody(prefix: string, body: string): Decoded {
    match Symbols(body)
    case None => Rejected
    case Some(v) =>
      if !IsValid(Expand(prefix) + v) then Rejected
      else if |v| < 8 then Overrun
      else Address(prefix, v[..|v| - 8])
  }

  function Decode(str: string, defaultPrefix: string): Decoded
    requires Bytes(str)
  {
    match ScanTo(str, |str|)
    case None => Rejected
    case Some(s) =>
      if s.upper && s.lower then Rejected
      else if s.prefixSize == 0 then DecodedBody(defaultPrefix, str)
      else PrefixInside(str, |str|); DecodedBody(LowerAll(str[..s.prefixSize]), str[s.prefixSize + 1..])
  }

  lemma {:induction false} PrefixInside(str: string, n: nat)
    requires n <= |str|
    ensures var s := ScanTo(str, n);
      s.Some? && s.value.prefixSize != 0 ==> s.value.prefixSize < n && str[s.value.prefixSize] == ':'
  {
    if n > 0 { PrefixInside(str, n - 1); }
  }

  method ScanString(str: string) returns (r: Option<Scan>)
    ensures r == ScanTo(str, |str|)
  {
    hide ScanChar;
    var s := Scan(false, false, false, 0);
    for i := 0 to |str|
      invariant ScanTo(str, i) == Some(s)
    {
      var next := ScanChar(s, str[i], i);
      if next.None? {
        ScanStuck(str, i + 1, |str|);
        return None;
      }
      s := next.value;
    }
    return Some(s);
  }

  lemma {:induction false} ScanStuck(str: string, i: nat, n: nat)
    requires i <= n <= |str| && ScanTo(str, i).None?
    ensures ScanTo(str, n).None?
  {
    if i < n { ScanStuck(str, i, n - 1); }
  }

  method ReadSymbols(s: string) returns (r: Option<seq<Sym>>)
    ensures r == Symbols(s)
  {
    hide FromChar;
    var v := [];
    assert s[..0] == [];
    for i := 0 to |s|
      invariant Symbols(s[..i]) == Some(v)
    {
      var d := FromChar(s[i]);
      assert s[..i + 1][..i] == s[..i];
      if d.None? {
        SymbolsStuck(s, i + 1, |s|);
        assert s[..|s|] == s;
        return None;
      }
      v := v + [d.value];
    }
    assert s[..|s|] == s;
    return Some(v);
  }

  lemma {:induction false} SymbolsStuck(s: string, i: nat, n: nat)
    requires i <= n <= |s| && Symbols(s[..i]).None?
    ensures Symbols(s[..n]).None?
  {
    if i < n {
      SymbolsStuck(s, i, n - 1);
      assert s[..n][..n - 1] == s[..n - 1];
    }
  }

  method DecodeString(str: string, defaultPrefix: string) returns (r: Decoded)
    requires Bytes(str)
    ensures r == Decode(str, defaultPrefix)
  {
    hide ScanTo, Symbols, IsValid, Expand, LowerCase;
    var scan := ScanString(str);
    if scan.None? { return Rejected; }
    var s := scan.value;
    if s.upper && s.lower { return Rejected; }
    var prefix, body := defaultPrefix, str;
    if s.prefixSize != 0 {
      PrefixInside(str, |str|);
      prefix := [];
      for i := 0 to s.prefixSize
        invariant |prefix| == i && forall j | 0 <= j < i :: prefix[j] == LowerCase(str[j])
      {
        prefix := prefix + [LowerCase(str[i])];
      }
      assert prefix == LowerAll(str[..s.prefixSize]);
      body := str[s.prefixSize + 1..];
    }
    var values := ReadSymbols(body);
    if values.None? { return Rejected; }
    var ok := VerifyChecksum(prefix, values.value);
    if !ok { return Rejected; }
    if |values.value| < 8 { return Overrun; }
    return Address(prefix, values.value[..|values.value| - 8]);
  }

  // ------------------------------------------------------------------ round trips

  predicate LowerPrefix(prefix: string) { prefix != [] && forall i | 0 <= i < |prefix| :: IsLower(prefix[i]) }

  /** The text of lower-case letters and digits after a lower-case prefix. */
  predicate Plain(body: string) { forall i | 0 <= i < |body| :: IsLower(body[i]) || IsDigit(body[i]) }

  lemma {:induction false} SymbolsOfChars(v: seq<Sym>)
    ensures Symbols(Chars(v)) == Some(v) && Plain(Chars(v))
  {
    hide ToChar, FromLower;
    if v != [] {
      var n := |v| - 1;
      SymbolsOfChars(v[..n]);
      assert Chars(v)[..n] == Chars(v[..n]);
      AlphabetRoundTrip(v[n]);
      assert v == v[..n] + [v[n]];
      assert forall i | 0 <= i < n :: Chars(v)[i] == Chars(v[..n])[i];
    }
  }

  lemma ChecksumLength(e: seq<Sym>)
    ensures |Checksum(e)| == 8
  {}

  /** LowerCase on what a string may hold. */
  lemma LowerCaseOf(c: char)
    requires c as int < 256
    ensures IsUpper(c) ==> LowerCase(c) as int == c as int + 32
    ensures IsLower(c) || IsDigit(c) || c == ':' ==> LowerCase(c) == c
  {}

  lemma {:induction false} SymbolsLength(s: string)
    ensures Symbols(s).Some? ==> |Symbols(s).value| == |s|
  {
    hide FromChar;
    if s != [] { SymbolsLength(s[..|s| - 1]); }
  }

  // ------------------------------------------------------ what is accepted, by characters

  predicate IsLetter(c: char) { IsLower(c) || IsUpper(c) }

  /** No string with letters of both cases. */
  predicate OneCase(str: string) {
    !(exists i, j | 0 <= i < |str| && 0 <= j < |str| :: 'a' <= str[i] <= 'z' && 'A' <= str[j] <= 'Z')
  }

  predicate HasLower(str: string) { exists i | 0 <= i < |str| :: IsLower(str[i]) }
  predicate HasUpper(str: string) { exists i | 0 <= i < |str| :: IsUpper(str[i]) }
  predicate HasDigit(str: string) { exists i | 0 <= i < |str| :: IsDigit(str[i]) }

  /** Letters and digits, and at most one colon, with letters only before it and at least one of them. */
  predicate WellFormed(str: string) {
    && (forall i | 0 <= i < |str| :: IsLetter(str[i]) || IsDigit(str[i]) || str[i] == ':')
    && (forall i, j | 0 <= i < j < |str| && str[j] == ':' :: IsLetter(str[i]))
    && (|str| > 0 ==> str[0] != ':')
  }

  predicate ColonAt(str: string, p: nat) {
    if p == 0 then forall i | 0 <= i < |str| :: str[i] != ':' else p < |str| && str[p] == ':'
  }

  lemma HasLast(str: string, c: char)
    ensures HasLower(str + [c]) <==> HasLower(str) || IsLower(c)
    ensures HasUpper(str + [c]) <==> HasUpper(str) || IsUpper(c)
    ensures HasDigit(str + [c]) <==> HasDigit(str) || IsDigit(c)
  {
    var s := str + [c];
    assert s[|str|] == c && forall i | 0 <= i < |str| :: s[i] == str[i];
  }

  lemma WellFormedLast(str: string, c: char)
    ensures WellFormed(str + [c]) <==>
      && WellFormed(str)
      && (IsLetter(c) || IsDigit(c) || (c == ':' && str != [] && forall i | 0 <= i < |str| :: IsLetter(str[i])))
  {
    var s := str + [c];
    assert s[|str|] == c && forall i | 0 <= i < |str| :: s[i] == str[i];
  }

  lemma ColonLast(str: string, c: char, p: nat)
    requires ColonAt(str, p)
    ensures c != ':' ==> ColonAt(str + [c], p)
    ensures c == ':' && str != [] ==> ColonAt(str + [c], |str|)
  {
    var s := str + [c];
    assert s[|str|] == c && forall i | 0 <= i < |str| :: s[i] == str[i];
  }

  lemma LettersOnly(str: string, p: nat)
    requires WellFormed(str) && ColonAt(str, p)
    ensures (p == 0 && !HasDigit(str)) <==> forall i | 0 <= i < |str| :: IsLetter(str[i])
  {
    if p > 0 { assert !IsLetter(str[p]); }
  }

  /** What the first loop of Decode finds out, and when it lets a string pass. */
  lemma {:induction false} ScanExactly(str: string, n: nat)
    requires n <= |str|
    ensures ScanTo(str, n).Some? <==> WellFormed(str[..n])
    ensures ScanTo(str, n).Some? ==>
      var s := ScanTo(str, n).value;
      && (s.lower <==> HasLower(str[..n])) && (s.upper <==> HasUpper(str[..n])) && (s.hasNumber <==> HasDigit(str[..n]))
      && ColonAt(str[..n], s.prefixSize)
  {
    hide WellFormed, HasLower, HasUpper, HasDigit, ColonAt;
    if n == 0 {
      assert str[..0] == [];
      NothingScanned();
    } else {
      ScanExactly(str, n - 1);
      var before, c := str[..n - 1], str[n - 1];
      assert str[..n] == before + [c];
      HasLast(before, c);
      WellFormedLast(before, c);
      if ScanTo(str, n - 1).Some? {
        var p := ScanTo(str, n - 1).value.prefixSize;
        ColonLast(before, c, p);
        LettersOnly(before, p);
      }
    }
  }

  lemma NothingScanned()
    ensures WellFormed("") && !HasLower("") && !HasUpper("") && !HasDigit("") && ColonAt("", 0)
  {}

  lemma OneCaseExactly(str: string)
    ensures OneCase(str) <==> !(HasLower(str) && HasUpper(str))
  {}

  lemma Scanned(str: string)
    ensures ScanTo(str, |str|).Some? <==> WellFormed(str)
    ensures ScanTo(str, |str|).Some? ==>
      var s := ScanTo(str, |str|).value; (!(s.upper && s.lower) <==> OneCase(str)) && ColonAt(str, s.prefixSize)
  {
    hide ScanTo, WellFormed, HasLower, HasUpper, HasDigit, ColonAt, OneCase;
    ScanExactly(str, |str|);
    assert str[..|str|] == str;
    OneCaseExactly(str);
  }

  /** Letters of both cases: always rejected. */
  lemma MixedCaseRejected(str: string, defaultPrefix: string)
    requires Bytes(str) && !OneCase(str)
    ensures Decode(str, defaultPrefix) == Rejected
  {
    hide ScanTo, WellFormed, OneCase, DecodedBody, LowerAll;
    Scanned(str);
  }

  /** The letters A to Z in lower case, and every other character as it is. */
  function Lowered(str: string): (r: string)
    ensures |r| == |str|
  {
    seq(|str|, i requires 0 <= i < |str| =>
      if 'A' <= str[i] <= 'Z' then (str[i] as int + 32) as char else str[i])
  }

  lemma LoweredAll(str: string)
    requires Bytes(str) && forall i | 0 <= i < |str| :: IsLetter(str[i]) || IsDigit(str[i]) || str[i] == ':'
    ensures LowerAll(str) == Lowered(str)
  {
    hide LowerCase;
    forall i | 0 <= i < |str| ensures LowerAll(str)[i] == Lowered(str)[i] { LowerCaseOf(str[i]); }
  }

  /** Where the first colon is, or the end. */
  function Cut(str: string): (n: nat)
    ensures n <= |str| && (n < |str| ==> str[n] == ':') && forall i | 0 <= i < n :: str[i] != ':'
  {
    if str == [] then 0 else if str[0] == ':' then 0 else 1 + Cut(str[1..])
  }

  /** The prefix that Decode goes by. */
  function PrefixOf(str: string, defaultPrefix: string): string {
    if Cut(str) == |str| then defaultPrefix else Lowered(str[..Cut(str)])
  }

  function BodyOf(str: string): string { if Cut(str) == |str| then str else str[Cut(str) + 1..] }

  /** A well formed string in one case is cut at its colon, and any other is rejected. */
  lemma DecodeParts(str: string, defaultPrefix: string)
    requires Bytes(str)
    ensures Decode(str, defaultPrefix) == if WellFormed(str) && OneCase(str)
                                          then DecodedBody(PrefixOf(str, defaultPrefix), BodyOf(str)) else Rejected
  {
    hide ScanTo, OneCase, DecodedBody, LowerAll, Lowered;
    Scanned(str);
    if WellFormed(str) {
      var n := ScanTo(str, |str|).value.prefixSize;
      if n != 0 {
        assert str[n] == ':' && Cut(str) == n;
        LoweredAll(str[..n]);
      }
    }
  }

  /** A body is read as the symbols whose characters it has, in either case. */
  lemma {:induction false} SymbolsExactly(s: string, v: seq<Sym>)
    ensures Symbols(s) == Some(v) <==> Lowered(s) == Chars(v)
  {
    hide ToChar, FromLower;
    if s == [] {
      assert Lowered(s) == [];
    } else {
      var n := |s| - 1;
      var c := Lowered(s)[n];
      assert Lowered(s) == Lowered(s[..n]) + [c];
      FromCharOf(s[n]);
      if |v| == |s| {
        SymbolsExactly(s[..n], v[..n]);
        assert Chars(v) == Chars(v[..n]) + [ToChar(v[n])];
        assert v == v[..n] + [v[n]];
        AlphabetRoundTrip(v[n]);
        AlphabetInverse(c);
        assert Lowered(s) == Chars(v) ==> Lowered(s)[..n] == Chars(v)[..n] && Lowered(s)[n] == Chars(v)[n];
      } else {
        SymbolsLength(s);
      }
    }
  }

  lemma FromCharOf(c: char)
    ensures FromChar(c) == FromLower(Lowered([c])[0])
  {}

  lemma BodyExactly(prefix: string, body: string, p: string, v: seq<Sym>)
    ensures DecodedBody(prefix, body) == Address(p, v) <==>
        p == prefix && Lowered(body) == Chars(v + Checksum(Expand(prefix) + v))
  {
    hide Symbols, IsValid, Checksum, Expand, Chars, Lowered;
    var e := Expand(prefix);
    ChecksumLength(e + v);
    ChecksumValid(e + v);
    SymbolsExactly(body, v + Checksum(e + v));
    assert e + (v + Checksum(e + v)) == e + v + Checksum(e + v);
    assert (v + Checksum(e + v))[..|v|] == v;
    if DecodedBody(prefix, body) == Address(p, v) {
      var w := Symbols(body).value;
      var check := w[|w| - 8..];
      assert v == w[..|w| - 8] && w == v + check && e + w == e + v + check;
      ChecksumUnique(e + v, check);
    }
  }

  /** The two ways to write an address: with its prefix, or without it when it is the default one. */
  predicate Writes(str: string, defaultPrefix: string, p: string, v: seq<Sym>) {
    || (LowerPrefix(p) && Lowered(str) == Encoded(p, v))
    || (':' !in str && p == defaultPrefix && p + ":" + Lowered(str) == Encoded(p, v))
  }

  /** Decode accepts exactly the encodings, in one case, with the prefix or without the default one. */
  lemma DecodeExactly(str: string, defaultPrefix: string, p: string, v: seq<Sym>)
    requires Bytes(str)
    ensures Decode(str, defaultPrefix) == Address(p, v) <==> OneCase(str) && Writes(str, defaultPrefix, p, v)
  {
    hide Decode, WellFormed, OneCase, DecodedBody, Writes;
    DecodeParts(str, defaultPrefix);
    if WellFormed(str) {
      if Cut(str) == |str| {
        BareWrites(str, defaultPrefix, p, v);
      } else {
        PrefixedWrites(str, defaultPrefix, Cut(str), p, v);
      }
    } else if Writes(str, defaultPrefix, p, v) {
      WritesWell(str, defaultPrefix, p, v);
    }
  }

  lemma BareWrites(str: string, defaultPrefix: string, p: string, v: seq<Sym>)
    requires ':' !in str
    ensures DecodedBody(defaultPrefix, str) == Address(p, v) <==> Writes(str, defaultPrefix, p, v)
  {
    hide DecodedBody, Chars, Checksum, Expand;
    BodyExactly(defaultPrefix, str, p, v);
    var body := Chars(v + Checksum(Expand(p) + v));
    assert Encoded(p, v)[|p|] == ':';
    assert forall i | 0 <= i < |str| :: Lowered(str)[i] != ':';
    assert (p + ":" + Lowered(str))[|p| + 1..] == Lowered(str) && Encoded(p, v)[|p| + 1..] == body;
  }

  lemma PrefixedWrites(str: string, defaultPrefix: string, n: nat, p: string, v: seq<Sym>)
    requires WellFormed(str) && n < |str| && str[n] == ':'
    ensures DecodedBody(Lowered(str[..n]), str[n + 1..]) == Address(p, v) <==> Writes(str, defaultPrefix, p, v)
  {
    hide DecodedBody, Chars, Checksum, Expand;
    var prefix, body := str[..n], str[n + 1..];
    BodyExactly(Lowered(prefix), body, p, v);
    LoweredParts(str, n);
    var rest := Chars(v + Checksum(Expand(p) + v));
    if Lowered(str) == Encoded(p, v) && LowerPrefix(p) {
      LettersFirst(Lowered(prefix), Lowered(body), p, rest);
    }
  }

  lemma LoweredParts(str: string, n: nat)
    requires WellFormed(str) && 0 < n < |str| && str[n] == ':'
    ensures Lowered(str) == Lowered(str[..n]) + ":" + Lowered(str[n + 1..]) && LowerPrefix(Lowered(str[..n]))
    ensures ':' in str
  {
    forall i | 0 <= i < n ensures IsLower(Lowered(str[..n])[i]) { assert IsLetter(str[i]); }
  }

  /** The first colon ends the prefix. */
  lemma LettersFirst(a: string, b: string, p: string, q: string)
    requires LowerPrefix(a) && LowerPrefix(p) && a + ":" + b == p + ":" + q
    ensures a == p && b == q
  {
    var s, t := a + ":" + b, p + ":" + q;
    assert s[|a|] == ':' && t[|p|] == ':';
    assert forall i | 0 <= i < |a| :: s[i] == a[i];
    assert forall i | 0 <= i < |p| :: t[i] == p[i];
    assert |a| == |p|;
    assert a == s[..|a|] && p == t[..|p|] && b == s[|a| + 1..] && q == t[|p| + 1..];
  }

  lemma WritesWell(str: string, defaultPrefix: string, p: string, v: seq<Sym>)
    requires Writes(str, defaultPrefix, p, v)
    ensures WellFormed(str)
  {
    hide Chars, Checksum, Expand, LowerPrefix;
    var w := v + Checksum(Expand(p) + v);
    SymbolsOfChars(w);
    if LowerPrefix(p) && Lowered(str) == Encoded(p, v) {
      PlainWell(str, p, Chars(w));
    } else {
      assert (p + ":" + Lowered(str))[|p| + 1..] == Lowered(str) && Encoded(p, v)[|p| + 1..] == Chars(w);
      forall i | 0 <= i < |str| ensures IsLetter(str[i]) || IsDigit(str[i]) { assert Lowered(str)[i] == Chars(w)[i]; }
    }
  }

  lemma PlainWell(str: string, p: string, body: string)
    requires LowerPrefix(p) && Plain(body) && Lowered(str) == p + ":" + body
    ensures WellFormed(str)
  {
    forall i | 0 <= i < |str|
      ensures if i < |p| then IsLetter(str[i])
              else if i == |p| then str[i] == ':'
              else IsLetter(str[i]) || IsDigit(str[i])
    {
      assert Lowered(str)[i] == if i < |p| then p[i] else if i == |p| then ':' else body[i - |p| - 1];
    }
  }

  /** Decode(Encode(prefix, payload)) is the prefix and the payload. */
  lemma RoundTrip(prefix: string, payload: seq<Sym>, defaultPrefix: string)
    requires LowerPrefix(prefix)
    ensures Bytes(Encoded(prefix, payload))
    ensures Decode(Encoded(prefix, payload), defaultPrefix) == Address(prefix, payload)
  {
    hide Decode, Checksum, Expand, Chars, LowerPrefix;
    var word := payload + Checksum(Expand(prefix) + payload);
    SymbolsOfChars(word);
    PlainText(prefix, Chars(word));
    DecodeExactly(Encoded(prefix, payload), defaultPrefix, prefix, payload);
  }

  lemma PlainText(prefix: string, body: string)
    requires LowerPrefix(prefix) && Plain(body)
    ensures var str := prefix + ":" + body; Bytes(str) && OneCase(str) && Lowered(str) == str
  {
    var str := prefix + ":" + body;
    forall i | 0 <= i < |str| ensures str[i] as int < 256 && !IsUpper(str[i]) {
      assert str[i] == if i < |prefix| then prefix[i] else if i == |prefix| then ':' else body[i - |prefix| - 1];
    }
  }

  /** Every string that Decode accepts, in lower case and with its prefix spelled out, is the encoding of the result. */
  lemma AcceptsOnlyEncodings(str: string, defaultPrefix: string)
    requires Bytes(str) && Decode(str, defaultPrefix).Address?
    ensures var a := Decode(str, defaultPrefix);
      && (if ':' in str then LowerPrefix(a.prefix) else a.prefix == defaultPrefix)
      && Encoded(a.prefix, a.data) == (if ':' in str then Lowered(str) else defaultPrefix + ":" + Lowered(str))
  {
    hide Decode, Checksum, Expand, Chars, OneCase;
    var a := Decode(str, defaultPrefix);
    DecodeExactly(str, defaultPrefix, a.prefix, a.data);
    assert Encoded(a.prefix, a.data)[|a.prefix|] == ':';
    if Lowered(str) == Encoded(a.prefix, a.data) { assert str[|a.prefix|] == ':'; }
  }

  // ------------------------------------------------- too few symbols for a checksum

  /**
   Fewer than eight symbols v complete a prefix to a valid word: its end, the zero
   and v are together the checksum of what the prefix has before.
   */
  predicate Completes(prefix: string, v: seq<Sym>) {
    |v| < 8 && 7 <= |prefix| + |v| &&
    var h := |prefix| + |v| - 7;
    Expand(prefix)[h..] + v == Checksum(Expand(prefix)[..h])
  }

  lemma CompletesExactly(prefix: string, v: seq<Sym>)
    requires |v| < 8
    ensures IsValid(Expand(prefix) + v) <==> Completes(prefix, v)
  {
    hide IsValid, Expand, Checksum;
    var w := Expand(prefix) + v;
    if |w| < 8 {
      ShortInvalid(w);
    } else {
      var h := |prefix| + |v| - 7;
      ValidExactly(w);
      assert w[..h] == Expand(prefix)[..h] && w[h..] == Expand(prefix)[h..] + v;
    }
  }

  /**
   Decode steps back before the start of the payload exactly on these strings; a body of
   eight characters or more is never one.
   */
  lemma OverrunExactly(str: string, defaultPrefix: string)
    requires Bytes(str)
    ensures Decode(str, defaultPrefix) == Overrun <==>
      && WellFormed(str) && OneCase(str) && |BodyOf(str)| < 8 && Symbols(BodyOf(str)).Some?
      && Completes(PrefixOf(str, defaultPrefix), Symbols(BodyOf(str)).value)
  {
    hide Decode, WellFormed, OneCase, IsValid, Expand, Checksum, Completes, Symbols, PrefixOf, BodyOf;
    DecodeParts(str, defaultPrefix);
    if Symbols(BodyOf(str)).Some? {
      var v := Symbols(BodyOf(str)).value;
      SymbolsLength(BodyOf(str));
      if |v| < 8 { CompletesExactly(PrefixOf(str, defaultPrefix), v); }
    }
  }

  /**
   Which prefixes have such a body of n symbols: those whose own end is the start
   of the checksum of what comes before it. The body is then the rest of the checksum.
   */
  lemma OverrunningPrefix(prefix: string, n: nat)
    requires n < 8
    ensures (exists v :: |v| == n && Completes(prefix, v)) <==> HasOverrun(prefix, n)
    ensures forall v | |v| == n && Completes(prefix, v) :: v == Checksum(Expand(prefix)[..|prefix| + n - 7])[8 - n..]
  {
    hide Expand, Checksum;
    if 7 <= |prefix| + n {
      var h := |prefix| + n - 7;
      var end, check := Expand(prefix)[h..], Checksum(Expand(prefix)[..h]);
      ChecksumLength(Expand(prefix)[..h]);
      forall v | |v| == n && Completes(prefix, v) ensures v == check[8 - n..] && end == check[..8 - n] {
        assert (end + v)[8 - n..] == v && (end + v)[..8 - n] == end;
      }
      if HasOverrun(prefix, n) {
        assert check[..8 - n] + check[8 - n..] == check;
        assert Completes(prefix, check[8 - n..]);
      }
    }
  }

  predicate HasOverrun(prefix: string, n: nat)
    requires n < 8
  {
    7 <= |prefix| + n &&
    var h := |prefix| + n - 7;
    ChecksumLength(Expand(prefix)[..h]); Expand(prefix)[h..] == Checksum(Expand(prefix)[..h])[..8 - n]
  }

  lemma FoldLast(c: Poly, v: seq<Sym>, d: Sym)
    ensures Fold(c, v + [d]) == Xor(Shifted(Fold(c, v), d), Flat(Fold(c, v)))
  {
    FoldSplit(c, v, [d]);
    FoldOne(Fold(c, v), d);
    ReductionFlat(Fold(c, v));
  }

  /** One such word. */
  lemma SevenSymbols()
    ensures IsValid([3, 0, 0, 12, 13, 4, 10, 2, 17])
  {
    hide Fold, Xor, Shifted, Flat;
    NothingFolded(1);
    var w: seq<Sym> := [3, 0, 0, 12, 13, 4, 10, 2, 17];
    var c: seq<Poly> := [1, 0x23, 0x460, 0x8c00, 0x11800c, 0x230018d, 0x460031a4, 0x8c006348a, 0x80f27a1f23, 1];
    assert w[..0] == [] && Fold(1, w[..0]) == 1;
    for i := 0 to 9
      invariant Fold(1, w[..i]) == c[i]
    {
      FoldLast(1, w[..i], w[i]);
      assert w[..i + 1] == w[..i] + [w[i]];
      ConcreteStep(i);
    }
    assert w[..9] == w;
  }

  lemma NothingFolded(c: Poly)
    ensures Fold(c, []) == c
  {}

  lemma ConcreteStep(i: nat)
    requires i < 9
    ensures var w: seq<Sym> := [3, 0, 0, 12, 13, 4, 10, 2, 17];
      var c: seq<Poly> := [1, 0x23, 0x460, 0x8c00, 0x11800c, 0x230018d, 0x460031a4, 0x8c006348a, 0x80f27a1f23, 1];
      Xor(Shifted(c[i], w[i]), Flat(c[i])) == c[i + 1]
  {
    if i == 0 {} else if i == 1 {} else if i == 2 {} else if i == 3 {} else if i == 4 {} else
    if i == 5 {} else if i == 6 {} else if i == 7 {} else {}
  }

  /** A string of the scanned form on which Decode does it. */
  lemma OverrunExample(defaultPrefix: string)
    ensures Decode("c:fvdy2z3", defaultPrefix) == Overrun
  {
    hide IsValid, ToChar;
    var str := "c:fvdy2z3";
    var v: seq<Sym> := [0, 12, 13, 4, 10, 2, 17];
    ExampleScan();
    ExampleSymbols();
    SevenSymbols();
    assert LowerAll(str[..1]) == "c" && str[2..] == "fvdy2z3";
    assert Expand("c") + v == [3, 0, 0, 12, 13, 4, 10, 2, 17];
  }

  lemma ExampleScan()
    ensures ScanTo("c:fvdy2z3", 9) == Some(Scan(true, false, true, 1))
  {
    var str := "c:fvdy2z3";
    assert ScanTo(str, 2) == Some(Scan(true, false, false, 1));
    assert ScanTo(str, 4) == Some(Scan(true, false, false, 1));
    assert ScanTo(str, 6) == Some(Scan(true, false, false, 1));
    assert ScanTo(str, 8) == Some(Scan(true, false, true, 1));
  }

  lemma ExampleSymbols()
    ensures Symbols("fvdy2z3") == Some([0, 12, 13, 4, 10, 2, 17])
  {
    var v: seq<Sym> := [0, 12, 13, 4, 10, 2, 17];
    hide FromLower, ToChar;
    SymbolsOfChars(v);
    ExampleChars();
  }

  lemma ExampleChars()
    ensures Chars([0, 12, 13, 4, 10, 2, 17]) == "fvdy2z3"
  {}
}
