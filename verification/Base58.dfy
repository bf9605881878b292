/** Base58 encoding and decoding (src/base58.cpp). */
module Base58 {
  import opened Numbers
  import opened Radix

  type byte = x: nat | x < 256

  datatype Option<T> = None | Some(value: T)

  // --------------------------------------------------------------------- characters

  function Run(lo: char, hi: char): string
    requires lo <= hi < 128 as char
  {
    seq(hi as int - lo as int + 1, i requires 0 <= i <= hi as int - lo as int => (lo as int + i) as char)
  }

  /** All alphanumeric characters except 0, I, O and l. */
  const pszBase58: string := Run('1', '9') + Run('A', 'H') + Run('J', 'N') + Run('P', 'Z') + Run('a', 'k') + Run('m', 'z')

  lemma Alphabet()
    ensures |pszBase58| == 58 && pszBase58[0] == '1'
    ensures forall i, j :: 0 <= i < j < 58 ==> pszBase58[i] < pszBase58[j]
    ensures forall i :: 0 <= i < 58 ==> !IsSpace(pszBase58[i]) && pszBase58[i] != '\0'
    ensures forall i :: 0 <= i < 58 ==> Alphanumeric(pszBase58[i]) && pszBase58[i] !in {'0', 'I', 'O', 'l'}
  {
  }

  predicate Alphanumeric(c: char) {
    '0' <= c <= '9' || 'A' <= c <= 'Z' || 'a' <= c <= 'z'
  }

  /** Which characters are digits: 58 different ones out of the 58 that qualify leave none out. */
  lemma DigitIff(c: char)
    ensures DigitOf(c) < 58 <==> Alphanumeric(c) && c !in {'0', 'I', 'O', 'l'}
    ensures DigitOf(c) < 58 ==> DigitOf(c) == PlaceOf(c)
  {
    Alphabet();
    if Alphanumeric(c) && c !in {'0', 'I', 'O', 'l'} {
      var i := PlaceOf(c);
      assert pszBase58[i] == c;
    }
  }

  /** Where a character of the alphabet stands: digits, then capitals, then small letters. */
  function PlaceOf(c: char): (i: nat)
    requires Alphanumeric(c) && c !in {'0', 'I', 'O', 'l'}
    ensures i < 58
  {
    if c <= '9' then c as int - '1' as int
    else if c <= 'Z' then 9 + (c as int - 'A' as int) - (if c > 'I' then 1 else 0) - (if c > 'O' then 1 else 0)
    else 33 + (c as int - 'a' as int) - (if c > 'l' then 1 else 0)
  }

  /** The white space of isspace in the C locale. */
  lemma Spaces(c: char)
    ensures IsSpace(c) <==> c in {' ', '\t', '\n', '\r', 11 as char, 12 as char}
  {
  }

  predicate IsSpace(c: char) {
    c == ' ' || 9 <= c as int <= 13
  }

  /** The digit a character stands for, or 58. */
  function DigitOf(c: char): (d: nat)
    ensures d <= 58
  {
    Alphabet();
    IndexFrom(c, 0)
  }

  function IndexFrom(c: char, i: nat): (d: nat)
    requires i <= |pszBase58|
    ensures i <= d <= |pszBase58| && (d < |pszBase58| ==> pszBase58[d] == c) && forall k :: i <= k < d ==> pszBase58[k] != c
    decreases |pszBase58| - i
  {
    if i == |pszBase58| || pszBase58[i] == c then i else IndexFrom(c, i + 1)
  }

  function CharOf(d: nat): char {
    Alphabet();
    if d < 58 then pszBase58[d] else '\0'
  }

  /** Digits and their characters. */
  lemma CharDigit(d: nat)
    requires d < 58
    ensures DigitOf(CharOf(d)) == d && !IsSpace(CharOf(d)) && CharOf(d) != '\0' && (CharOf(d) == '1' <==> d == 0)
  {
    Alphabet();
  }

  lemma DigitChar(c: char)
    requires DigitOf(c) < 58
    ensures CharOf(DigitOf(c)) == c && (c == '1' <==> DigitOf(c) == 0)
  {
    Alphabet();
  }

  ghost function Chars(digits: seq<nat>): (r: string)
    ensures |r| == |digits|
  {
    seq(|digits|, i requires 0 <= i < |digits| => CharOf(digits[i]))
  }

  ghost function DigitsOf(s: string): (r: seq<nat>)
    ensures |r| == |s|
  {
    seq(|s|, i requires 0 <= i < |s| => DigitOf(s[i]))
  }

  // ------------------------------------------------------------------ specification

  /** One '1' for every leading zero byte, then the number the bytes make in base 58. */
  ghost function Encoded(bytes: seq<nat>): string {
    seq(LeadingZeros(bytes), i => '1') + Chars(Shortest(58, Number(256, bytes)))
  }

  /** The position of the first character from `i` on that is a space (or is not one). */
  function SpaceFrom(s: string, i: nat, space: bool): (r: nat)
    requires i <= |s|
    ensures i <= r <= |s| && (forall k :: i <= k < r ==> IsSpace(s[k]) != space) && (r < |s| ==> IsSpace(s[r]) == space)
    decreases |s| - i
  {
    if i == |s| || IsSpace(s[i]) == space then i else SpaceFrom(s, i + 1, space)
  }

  lemma SpaceStep(s: string, i: nat, space: bool)
    requires i <= |s|
    ensures i < |s| && IsSpace(s[i]) != space ==> SpaceFrom(s, i, space) == SpaceFrom(s, i + 1, space)
    ensures i == |s| || IsSpace(s[i]) == space ==> SpaceFrom(s, i, space) == i
  {
  }

  /** The text without surrounding spaces, up to the first space inside it. */
  function Word(s: string): string {
    var start := SpaceFrom(s, 0, false);
    s[start..SpaceFrom(s, start, true)]
  }

  /** Nothing but spaces follows the first word. */
  predicate OneWord(s: string) {
    SpaceFrom(s, SpaceFrom(s, SpaceFrom(s, 0, false), true), false) == |s|
  }

  ghost predicate InAlphabet(s: string) {
    forall i :: 0 <= i < |s| ==> DigitOf(s[i]) < 58
  }

  ghost function Decoded(s: string): Option<seq<nat>> {
    if !InAlphabet(Word(s)) || !OneWord(s) then None
    else
      var digits := DigitsOf(Word(s));
      Some(Zeros(LeadingZeros(digits)) + Shortest(256, Number(58, digits)))
  }

  // ------------------------------------------------------------------ the round trips

  lemma DigitsOfChars(digits: seq<nat>)
    requires Digits(58, digits)
    ensures DigitsOf(Chars(digits)) == digits && InAlphabet(Chars(digits))
    ensures forall c :: c in Chars(digits) ==> !IsSpace(c) && c != '\0'
  {
    forall i | 0 <= i < |digits|
      ensures DigitOf(Chars(digits)[i]) == digits[i] && !IsSpace(Chars(digits)[i]) && Chars(digits)[i] != '\0'
    {
      CharDigit(digits[i]);
    }
  }

  /** The encoding is the base-58 digits with as many leading zeros as the bytes have. */
  lemma EncodedChars(bytes: seq<nat>)
    ensures Encoded(bytes) == Chars(Zeros(LeadingZeros(bytes)) + Shortest(58, Number(256, bytes)))
  {
    CharDigit(0);
  }

  lemma WordOfWord(s: string)
    requires forall c :: c in s ==> !IsSpace(c)
    ensures Word(s) == s && OneWord(s)
  {
  }

  /** Decoding undoes encoding, for every byte sequence. */
  lemma DecodeEncode(bytes: seq<nat>)
    requires Digits(256, bytes)
    ensures Decoded(CString(Encoded(bytes))) == Some(bytes)
  {
    DecodeEncoded(bytes);
    EncodedChars(bytes);
    DigitsOfChars(Zeros(LeadingZeros(bytes)) + Shortest(58, Number(256, bytes)));
    hide *;
    CStringWhole(Encoded(bytes));
  }

  lemma {:induction false} CStringWhole(s: string)
    requires '\0' !in s
    ensures CString(s) == s
  {
    if s != [] {
      CStringWhole(s[1..]);
    }
  }

  lemma DecodeEncoded(bytes: seq<nat>)
    requires Digits(256, bytes)
    ensures Decoded(Encoded(bytes)) == Some(bytes)
  {
    var z, v := LeadingZeros(bytes), Number(256, bytes);
    var d := Shortest(58, v);
    EncodedChars(bytes);
    DigitsOfChars(Zeros(z) + d);
    WordOfWord(Encoded(bytes));
    LeadingZerosOf(z, d);
    NumberPadded(58, z, d);
    NumberOfShortest(58, v);
    StrippedIsShortest(256, bytes);
  }

  /** Encoding undoes decoding, up to surrounding spaces: every accepted word is the encoding of what it decodes to. */
  lemma EncodeDecode(s: string)
    requires Decoded(s).Some?
    ensures Digits(256, Decoded(s).value) && Encoded(Decoded(s).value) == Word(s)
  {
    var digits := DigitsOf(Word(s));
    var z, v := LeadingZeros(digits), Number(58, digits);
    var d := Shortest(256, v);
    var bytes := Zeros(z) + d;
    LeadingZerosOf(z, d);
    NumberPadded(256, z, d);
    NumberOfShortest(256, v);
    StrippedIsShortest(58, digits);
    EncodedChars(bytes);
    CharsOfDigits(Word(s));
    hide Number, LeadingZeros, Word, InAlphabet, OneWord, Shortest, DigitsOf, Chars;
  }

  lemma CharsOfDigits(w: string)
    requires InAlphabet(w)
    ensures Chars(DigitsOf(w)) == w
  {
    hide CharOf, DigitOf;
    forall i | 0 <= i < |w|
      ensures Chars(DigitsOf(w))[i] == w[i]
    {
      DigitChar(w[i]);
    }
  }

  // ------------------------------------------------------------------- buffer sizes

  /** 138/100 is above log(256)/log(58): eleven base-58 digits hold eight bytes. */
  lemma EncodeBufferSuffices(n: nat)
    ensures Pow(256, n) <= Pow(58, n * 138 / 100 + 1)
  {
    EightBytes();
    hide *;
    BufferSuffices(256, 58, 8, 11, n, n * 138 / 100 + 1);
  }

  lemma EightBytes()
    ensures Pow(256, 8) <= Pow(58, 11)
  {
  }

  /** 733/1000 is above log(58)/log(256): fifty-two bytes hold seventy-one base-58 digits. */
  lemma DecodeBufferSuffices(n: nat)
    ensures Pow(58, n) <= Pow(256, n * 733 / 1000 + 1)
  {
    Powers();
    hide Pow;
    BufferSuffices(58, 256, 71, 52, n, n * 733 / 1000 + 1);
  }

  lemma Powers()
    ensures Pow(58, 71) <= Pow(256, 52)
  {
    assert Pow(58, 4) == 11316496 && Pow(58, 3) == 195112 && Pow(256, 4) == 4294967296;
    hide Pow;
    PowTimes(58, 4, 11316496, 4, 11316496);
    PowTimes(58, 8, 128063081718016, 8, 128063081718016);
    PowTimes(58, 16, 16400152899115243850138976256, 16, 16400152899115243850138976256);
    PowTimes(58, 32, 268965015114358137726910587140455987105619365599731777536, 32, 268965015114358137726910587140455987105619365599731777536);
    PowTimes(58, 64, 72342179355466901471258927612150153907721848234316445933056526044582001260898145151856420451025374266490194231296, 4, 11316496);
    PowTimes(58, 68, 818659983307423768631895769287186768096118664656249123135650444757408038940948816018402574608346843785239217057684258816, 3, 195112);
    PowTimes(256, 4, 4294967296, 4, 4294967296);
    PowTimes(256, 8, 18446744073709551616, 8, 18446744073709551616);
    PowTimes(256, 16, 340282366920938463463374607431768211456, 16, 340282366920938463463374607431768211456);
    PowTimes(256, 32, 115792089237316195423570985008687907853269984665640564039457584007913129639936, 16, 340282366920938463463374607431768211456);
    PowTimes(256, 48, 39402006196394479212279040100143613805079739270465446667948293404245721771497210611414266254884915640806627990306816, 4, 4294967296);
  }

  lemma PowTimes(b: nat, x: nat, px: nat, y: nat, py: nat)
    requires Pow(b, x) == px && Pow(b, y) == py
    ensures Pow(b, x + y) == px * py
  {
    PowAdd(b, x, y);
  }

  // ---------------------------------------------------------------------- the loops

  /** buf = buf * factor + digit, in place, from the last digit on; returns what does not fit. */
  method MulAdd(buf: array<nat>, base: nat, factor: nat, digit: nat) returns (carry: nat)
    requires base > 0 && Digits(base, buf[..])
    modifies buf
    ensures Digits(base, buf[..])
    ensures Number(base, buf[..]) + carry * Pow(base, buf.Length) == old(Number(base, buf[..])) * factor + digit
  {
    hide Number, Pow;
    ghost var x := buf[..];
    carry := digit;
    var i := buf.Length;
    MulAddStart(base, x, buf[..], digit);
    while i > 0
      invariant 0 <= i <= buf.Length && Digits(base, buf[..]) && buf[..i] == x[..i]
      invariant Number(base, buf[i..]) + carry * Pow(base, buf.Length - i) == Number(base, x[i..]) * factor + digit
    {
      ghost var was := buf[..];
      i := i - 1;
      assert was[i] == x[i] && was[..i] == x[..i];
      carry := carry + factor * buf[i];
      MulAddStep(base, factor, x, was, i, carry - factor * x[i], digit);
      buf[i] := carry % base;
      assert buf[..] == was[i := carry % base];
      carry := carry / base;
    }
    assert buf[0..] == buf[..] && x[0..] == x;
  }

  lemma MulAddStart(base: nat, x: seq<nat>, y: seq<nat>, digit: nat)
    ensures Number(base, x[|x|..]) == 0 && Number(base, y[|y|..]) == 0 && Pow(base, 0) == 1
  {
  }

  lemma NumberHead(base: nat, s: seq<nat>, i: nat)
    requires i < |s|
    ensures Number(base, s[i..]) == s[i] * Pow(base, |s| - i - 1) + Number(base, s[i + 1..])
  {
    NumberConcat(base, [s[i]], s[i + 1..]);
    NumberSnoc(base, [], s[i]);
    assert s[i..] == [s[i]] + s[i + 1..];
    assert [] + [s[i]] == [s[i]];
  }

  lemma MulAddStep(base: nat, factor: nat, x: seq<nat>, b: seq<nat>, i: nat, carry: nat, digit: nat)
    requires base > 0 && i < |x| == |b| && b[i] == x[i]
    requires Number(base, b[i + 1..]) + carry * Pow(base, |x| - i - 1) == Number(base, x[i + 1..]) * factor + digit
    ensures var n := carry + factor * x[i];
            Number(base, b[i := n % base][i..]) + n / base * Pow(base, |x| - i) == Number(base, x[i..]) * factor + digit
  {
    var n := carry + factor * x[i];
    var b' := b[i := n % base];
    NumberHead(base, x, i);
    NumberHead(base, b', i);
    assert b'[i + 1..] == b[i + 1..];
    var w := Pow(base, |x| - i - 1);
    assert Pow(base, |x| - i) == base * w;
    hide *;
    StepArithmetic(n, base, w, Number(base, b[i + 1..]), carry, factor, x[i], Number(base, x[i + 1..]), digit);
  }

  lemma StepArithmetic(n: nat, base: nat, w: nat, v: nat, carry: nat, factor: nat, d: nat, x: nat, digit: nat)
    requires base > 0 && n == carry + factor * d && v + carry * w == x * factor + digit
    ensures n % base * w + v + n / base * (base * w) == (d * w + x) * factor + digit
  {
    Recombined(n, base);
    assert n / base * (base * w) == (n / base * base) * w;
    assert (n % base + n / base * base) * w == n % base * w + (n / base * base) * w;
    assert (d * w + x) * factor == (factor * d) * w + x * factor;
    assert (carry + factor * d) * w == carry * w + (factor * d) * w;
  }

  /** A number below the buffer's capacity leaves no carry. */
  lemma NoCarry(v: nat, carry: nat, capacity: nat, bound: nat, n: nat)
    requires v + carry * capacity == n && n < bound <= capacity
    ensures carry == 0
  {
    if carry > 0 {
      MulGrows(1, carry, capacity);
    }
  }

  // -------------------------------------------------------------------- the functions

  method EncodeBase58(bytes: seq<byte>) returns (str: string)
    ensures str == Encoded(bytes)
  {
    hide Number, Pow, Shortest;
    var zeroes := 0;
    while zeroes < |bytes| && bytes[zeroes] == 0
      invariant zeroes <= |bytes| && forall i :: 0 <= i < zeroes ==> bytes[i] == 0
    {
      zeroes := zeroes + 1;
    }
    ZerosCounted(bytes, zeroes);
    var b58 := ToBase58(bytes[zeroes..]);
    StrippedIsShortest(256, bytes);
    StrippedIsShortest(58, b58[..]);
    NumberPadded(256, zeroes, bytes[zeroes..]);
    var it := SkipZeroes(b58);
    str := Translate(seq(zeroes, i => '1'), b58, it);
  }

  method Translate(prefix: string, b58: array<nat>, start: nat) returns (str: string)
    requires start <= b58.Length
    ensures str == prefix + Chars(b58[start..])
  {
    hide CharOf;
    str := prefix;
    ghost var all := Chars(b58[start..]);
    var it := start;
    while it < b58.Length
      invariant start <= it <= b58.Length && str == prefix + all[..it - start]
    {
      assert all[..it + 1 - start] == all[..it - start] + [CharOf(b58[it])];
      str := str + [CharOf(b58[it])];
      it := it + 1;
    }
    assert all[..|all|] == all;
  }

  /** The number the bytes make, in a base-58 buffer that is always large enough. */
  method ToBase58(bytes: seq<byte>) returns (b58: array<nat>)
    ensures fresh(b58) && Digits(58, b58[..]) && Number(58, b58[..]) == Number(256, bytes)
  {
    hide Number, Pow;
    b58 := new nat[|bytes| * 138 / 100 + 1](i => 0);
    NumberStart(58, b58[..]);
    NumberStart(256, bytes[..0]);
    EncodeBufferSuffices(|bytes|);
    var p := 0;
    while p < |bytes|
      invariant p <= |bytes| && Digits(58, b58[..]) && Number(58, b58[..]) == Number(256, bytes[..p])
    {
      NumberPrefix(256, bytes, p);
      var carry := MulAdd(b58, 58, 256, bytes[p]);
      NoCarry(Number(58, b58[..]), carry, Pow(58, b58.Length), Pow(256, |bytes|), Number(256, bytes[..p + 1]));
      assert carry == 0;
      p := p + 1;
    }
    assert bytes[..|bytes|] == bytes;
  }

  /** Decoding of a C string; a character that is not in the alphabet, or a second word, makes it fail. */
  method DecodeBase58(str: string) returns (r: Option<seq<nat>>)
    ensures r == Decoded(CString(str))
  {
    hide *;
    var s := CString(str);
    var start := SkipSpaces(s, 0);
    var psz, zeroes := start, 0;
    CharDigit(0);
    while psz < |s| && s[psz] == '1'
      invariant start <= psz <= |s| && zeroes == psz - start
      invariant forall i :: start <= i < psz ==> s[i] == '1'
      invariant SpaceFrom(s, psz, true) == SpaceFrom(s, start, true)
    {
      SpaceStep(s, psz, true);
      psz := psz + 1;
      zeroes := zeroes + 1;
    }
    var failed, b256, end := FromBase58(s, psz);
    WordPart(s, start, psz);
    NotDecoded(s);
    if failed {
      return None;
    }
    psz := SkipSpaces(s, end);
    if psz < |s| {
      return None;
    }
    DecodedParts(s, start, start + zeroes, b256[..]);
    var it := SkipZeroes(b256);
    r := Some(Zeros(zeroes) + b256[it..]);
  }

  method SkipSpaces(s: string, start: nat) returns (psz: nat)
    requires start <= |s|
    ensures psz == SpaceFrom(s, start, false)
  {
    hide SpaceFrom;
    psz := start;
    while psz < |s| && IsSpace(s[psz])
      invariant start <= psz <= |s| && SpaceFrom(s, psz, false) == SpaceFrom(s, start, false)
    {
      SpaceStep(s, psz, false);
      psz := psz + 1;
    }
    SpaceStep(s, psz, false);
  }

  lemma NotDecoded(s: string)
    ensures !InAlphabet(Word(s)) ==> Decoded(s) == None
    ensures SpaceFrom(s, SpaceFrom(s, SpaceFrom(s, 0, false), true), false) != |s| ==> Decoded(s) == None
    ensures OneWord(s) <==> SpaceFrom(s, SpaceFrom(s, SpaceFrom(s, 0, false), true), false) == |s|
  {
    hide SpaceFrom, InAlphabet, Word;
  }

  method SkipZeroes(buf: array<nat>) returns (it: nat)
    ensures it == LeadingZeros(buf[..])
  {
    it := 0;
    while it != buf.Length && buf[it] == 0
      invariant it <= buf.Length && forall i :: 0 <= i < it ==> buf[i] == 0
    {
      it := it + 1;
    }
    ZerosCounted(buf[..], it);
  }

  lemma {:induction false} ZerosCounted(s: seq<nat>, n: nat)
    requires n <= |s| && (forall i :: 0 <= i < n ==> s[i] == 0) && (n < |s| ==> s[n] != 0)
    ensures LeadingZeros(s) == n
  {
    if n > 0 {
      ZerosCounted(s[1..], n - 1);
    }
  }

  lemma NumberStart(base: nat, s: seq<nat>)
    requires forall i :: 0 <= i < |s| ==> s[i] == 0
    ensures Number(base, s) == 0 && Number(base, []) == 0
  {
    NumberOfZeros(base, |s|);
    assert s == Zeros(|s|);
  }

  lemma NumberPrefix(base: nat, s: seq<nat>, k: nat)
    requires base > 0 && k < |s| && Digits(base, s)
    ensures Number(base, s[..k + 1]) == Number(base, s[..k]) * base + s[k] < Pow(base, |s|)
  {
    NumberSnoc(base, s[..k], s[k]);
    assert s[..k + 1] == s[..k] + [s[k]];
    NumberBound(base, s[..k + 1]);
    PowGrows(base, k + 1, |s|);
  }

  // ------------------------------------------------------------------------ decoding

  /** What c_str() hands over: everything before the first NUL. */
  function CString(s: string): (r: string)
    ensures '\0' !in r && r <= s
  {
    if s == [] || s[0] == '\0' then [] else [s[0]] + CString(s[1..])
  }

  /** The number the characters up to the next space make, in a base-256 buffer that is always large enough. */
  method FromBase58(s: string, start: nat) returns (failed: bool, b256: array<nat>, end: nat)
    requires start <= |s|
    ensures failed <==> !InAlphabet(s[start..SpaceFrom(s, start, true)])
    ensures !failed ==>
              && fresh(b256) && Digits(256, b256[..]) && end == SpaceFrom(s, start, true)
              && Number(256, b256[..]) == Number(58, DigitsOf(s[start..end]))
  {
    hide Number, Pow, DigitOf, DigitsOf, InAlphabet, SpaceFrom;
    b256 := new nat[(|s| - start) * 733 / 1000 + 1](i => 0);
    NumberStart(256, b256[..]);
    NothingRead(s, start);
    DecodeBufferSuffices(|s| - start);
    end := start;
    while end < |s| && !IsSpace(s[end])
      invariant start <= end <= |s| && SpaceFrom(s, end, true) == SpaceFrom(s, start, true)
      invariant InAlphabet(s[start..end]) && Digits(256, b256[..])
      invariant Number(256, b256[..]) == Number(58, DigitsOf(s[start..end]))
    {
      var digit := DigitOf(s[end]);
      if digit == 58 {
        SpaceStep(s, end, true);
        BadCharacter(s, start, end, SpaceFrom(s, start, true));
        return true, b256, end;
      }
      SpaceStep(s, end, true);
      DigitsPrefix(s, start, end);
      var carry := MulAdd(b256, 256, 58, digit);
      NoCarry(Number(256, b256[..]), carry, Pow(256, b256.Length), Pow(58, |s| - start), Number(58, DigitsOf(s[start..end + 1])));
      assert carry == 0;
      end := end + 1;
    }
    SpaceStep(s, end, true);
    failed := false;
  }

  lemma NothingRead(s: string, start: nat)
    requires start <= |s|
    ensures InAlphabet(s[start..start]) && Number(58, DigitsOf(s[start..start])) == 0
  {
    NumberStart(58, DigitsOf(s[start..start]));
  }

  lemma BadCharacter(s: string, start: nat, bad: nat, end: nat)
    requires start <= bad < |s| && bad <= end <= |s| && DigitOf(s[bad]) == 58 && !IsSpace(s[bad])
    requires end == SpaceFrom(s, bad, true)
    ensures !InAlphabet(s[start..end])
  {
    SpaceStep(s, bad, true);
    hide DigitOf, SpaceFrom;
    assert s[start..end][bad - start] == s[bad];
  }

  lemma DigitsPrefix(s: string, start: nat, end: nat)
    requires start <= end < |s| && InAlphabet(s[start..end]) && DigitOf(s[end]) < 58
    ensures InAlphabet(s[start..end + 1])
    ensures Number(58, DigitsOf(s[start..end + 1])) == Number(58, DigitsOf(s[start..end])) * 58 + DigitOf(s[end]) < Pow(58, |s| - start)
  {
    hide DigitOf, Number, Pow;
    var d := DigitsOf(s[start..end + 1]);
    DigitsAppended(s, start, end);
    NumberSnoc(58, DigitsOf(s[start..end]), DigitOf(s[end]));
    NumberBound(58, d);
    PowGrows(58, |d|, |s| - start);
  }

  lemma DigitsAppended(s: string, start: nat, end: nat)
    requires start <= end < |s| && InAlphabet(s[start..end]) && DigitOf(s[end]) < 58
    ensures DigitsOf(s[start..end + 1]) == DigitsOf(s[start..end]) + [DigitOf(s[end])]
    ensures InAlphabet(s[start..end + 1]) && Digits(58, DigitsOf(s[start..end + 1]))
  {
    hide DigitOf;
    var t := s[start..end];
    assert s[start..end + 1] == t + [s[end]];
  }

  /** The word is a row of ones followed by the part that was converted. */
  lemma WordPart(s: string, start: nat, p: nat)
    requires start == SpaceFrom(s, 0, false) && start <= p <= |s| && SpaceFrom(s, p, true) == SpaceFrom(s, start, true)
    requires forall i :: start <= i < p ==> s[i] == '1'
    ensures InAlphabet(Word(s)) <==> InAlphabet(s[p..SpaceFrom(s, p, true)])
  {
    hide SpaceFrom, DigitOf;
    var end := SpaceFrom(s, p, true);
    CharDigit(0);
    forall i | 0 <= i < |Word(s)| && i < p - start
      ensures DigitOf(Word(s)[i]) < 58
    {
      assert Word(s)[i] == s[start + i];
    }
    assert Word(s)[p - start..] == s[p..end];
    forall i | 0 <= i < end - p
      ensures s[p..end][i] == Word(s)[p - start + i]
    {
    }
  }

  lemma DecodedParts(s: string, start: nat, p: nat, b256: seq<nat>)
    requires start == SpaceFrom(s, 0, false) && start <= p <= |s| && SpaceFrom(s, p, true) == SpaceFrom(s, start, true)
    requires (forall i :: start <= i < p ==> s[i] == '1') && (p < |s| ==> s[p] != '1')
    requires InAlphabet(Word(s)) && OneWord(s)
    requires Digits(256, b256) && Number(256, b256) == Number(58, DigitsOf(s[p..SpaceFrom(s, p, true)]))
    ensures Decoded(s) == Some(Zeros(p - start) + b256[LeadingZeros(b256)..])
  {
    hide SpaceFrom, Number, Shortest, DigitOf, LeadingZeros;
    var end := SpaceFrom(s, p, true);
    var rest := DigitsOf(s[p..end]);
    WordDigits(s, start, p);
    assert p < end ==> rest[0] != 0 by {
      if p < end {
        assert Word(s)[p - start] == s[p];
        DigitChar(s[p]);
      }
    }
    LeadingZerosOf(p - start, rest);
    NumberPadded(58, p - start, rest);
    StrippedIsShortest(256, b256);
  }

  lemma WordDigits(s: string, start: nat, p: nat)
    requires start == SpaceFrom(s, 0, false) && start <= p <= |s| && SpaceFrom(s, p, true) == SpaceFrom(s, start, true)
    requires forall i :: start <= i < p ==> s[i] == '1'
    ensures DigitsOf(Word(s)) == Zeros(p - start) + DigitsOf(s[p..SpaceFrom(s, p, true)])
  {
    hide SpaceFrom, DigitOf;
    CharDigit(0);
  }

  // ------------------------------------------------------------------ with a checksum

  /** The first four bytes of the hash of a byte sequence. */
  type Checksum = seq<byte> -> seq<byte>

  ghost predicate FourBytes(checksum: Checksum) {
    forall s :: |checksum(s)| == 4
  }

  method EncodeBase58Check(checksum: Checksum, vchIn: seq<byte>) returns (str: string)
    ensures str == Encoded(vchIn + checksum(vchIn))
  {
    str := EncodeBase58(vchIn + checksum(vchIn));
  }

  /** Accepts exactly the texts whose word is the encoding of some data and its checksum, and returns that data. */
  method DecodeBase58Check(checksum: Checksum, str: string) returns (r: Option<seq<byte>>)
    requires FourBytes(checksum)
    ensures r.Some? ==> OneWord(CString(str)) && Word(CString(str)) == Encoded(r.value + checksum(r.value))
    ensures forall v: seq<byte> :: OneWord(CString(str)) && Word(CString(str)) == Encoded(v + checksum(v)) ==> r == Some(v)
  {
    hide *;
    forall v: seq<byte> | OneWord(CString(str)) && Word(CString(str)) == Encoded(v + checksum(v))
      ensures Decoded(CString(str)) == Some(v + checksum(v)) && |checksum(v)| == 4
    {
      SameWord(CString(str), v + checksum(v));
      ChecksumLength(checksum, v);
    }
    var d := DecodeBase58(str);
    if d == None {
      return None;
    }
    EncodeDecode(CString(str));
    OnlyOneWord(CString(str));
    if |d.value| < 4 {
      return None;
    }
    var vch: seq<byte> := AsBytes(d.value);
    var n := |vch| - 4;
    assert vch[..n] + vch[n..] == vch;
    forall v: seq<byte> | d.value == v + checksum(v) && |checksum(v)| == 4
      ensures v == vch[..n] && checksum(v) == vch[n..]
    {
    }
    if checksum(vch[..n]) != vch[n..] {
      return None;
    }
    r := Some(vch[..n]);
  }

  function AsBytes(s: seq<nat>): (r: seq<byte>)
    requires Digits(256, s)
    ensures r == s
  {
    seq(|s|, i requires 0 <= i < |s| => s[i] as byte)
  }

  lemma ChecksumLength(checksum: Checksum, v: seq<byte>)
    requires FourBytes(checksum)
    ensures |checksum(v)| == 4
  {
  }

  lemma OnlyOneWord(s: string)
    requires Decoded(s).Some?
    ensures OneWord(s)
  {
  }

  lemma SameWord(s: string, bytes: seq<byte>)
    requires OneWord(s) && Word(s) == Encoded(bytes)
    ensures Decoded(s) == Some(bytes)
  {
    DecodeEncoded(bytes);
    EncodedChars(bytes);
    DigitsOfChars(Zeros(LeadingZeros(bytes)) + Shortest(58, Number(256, bytes)));
    WordOfWord(Encoded(bytes));
  }
}
