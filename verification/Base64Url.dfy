/** The streaming base64url decoder for access-token payloads (`decode_base64_url`,
    `src/auth/identity.rs`), against the encoding of section 5 of RFC 4648. */
module Base64Url {
  import opened Basics

  type Digit = x: int | 0 <= x < 64

  const MODULUS: int := 0x1_0000_0000

  // ---------- the alphabet ----------

  function DigitOf(c: char): Option<Digit> {
    if 'A' <= c <= 'Z' then Some(c as int - 'A' as int)
    else if 'a' <= c <= 'z' then Some(26 + (c as int - 'a' as int))
    else if '0' <= c <= '9' then Some(52 + (c as int - '0' as int))
    else if c == '-' then Some(62)
    else if c == '_' then Some(63)
    else None
  }

  function CharOf(d: Digit): (c: char)
    ensures DigitOf(c) == Some(d) && c != '='
  {
    if d < 26 then ('A' as int + d) as char
    else if d < 52 then ('a' as int + (d - 26)) as char
    else if d < 62 then ('0' as int + (d - 52)) as char
    else if d == 62 then '-'
    else '_'
  }

  const UPPER: string := "ABCDEFGHIJKLMNOPQRSTUVWXYZ"
  const LOWER: string := "abcdefghijklmnopqrstuvwxyz"
  const DIGITS: string := "0123456789"

  lemma UpperTable(i: nat)
    requires i < 26
    ensures UPPER[i] == ('A' as int + i) as char
  {
  }

  lemma LowerTable(i: nat)
    requires i < 26
    ensures LOWER[i] == ('a' as int + i) as char
  {
  }

  lemma DigitTable(i: nat)
    requires i < 10
    ensures DIGITS[i] == ('0' as int + i) as char
  {
  }

  /** The table of section 5 of RFC 4648. */
  lemma AlphabetTable(d: Digit)
    ensures d < 26 ==> CharOf(d) == UPPER[d]
    ensures 26 <= d < 52 ==> CharOf(d) == LOWER[d - 26]
    ensures 52 <= d < 62 ==> CharOf(d) == DIGITS[d - 52]
    ensures CharOf(62) == '-' && CharOf(63) == '_'
  {
    if d < 26 {
      UpperTable(d);
    } else if d < 52 {
      LowerTable(d - 26);
    } else if d < 62 {
      DigitTable(d - 52);
    }
  }

  // ---------- the decoder ----------

  datatype Decoder = Decoder(bytes: seq<Byte>, buffer: int, bitCount: int)

  function PowerOfTwo(n: nat): nat {
    if n == 0 then 1 else 2 * PowerOfTwo(n - 1)
  }

  /** `buffer << 6 | value` in 32 bits: the shift drops the high bits and leaves the low six zero. */
  function Shift(buffer: int, value: Digit): int {
    (buffer * 64) % MODULUS + value
  }

  /** `(buffer >> bitCount) & 0xFF`. */
  function ByteAt(buffer: int, bitCount: nat): Byte
    requires buffer >= 0
  {
    PowerPositive(bitCount);
    (buffer / PowerOfTwo(bitCount)) % 256
  }

  lemma PowerPositive(n: nat)
    ensures PowerOfTwo(n) > 0
  {
  }

  function Drain(d: Decoder): Decoder
    requires d.buffer >= 0 && d.bitCount >= 0
    decreases d.bitCount
  {
    if d.bitCount < 8 then d
    else Drain(d.(bytes := d.bytes + [ByteAt(d.buffer, d.bitCount - 8)], bitCount := d.bitCount - 8))
  }

  function Push(d: Decoder, value: Digit): Decoder
    requires d.buffer >= 0 && d.bitCount >= 0
  {
    Drain(d.(buffer := Shift(d.buffer, value), bitCount := d.bitCount + 6))
  }

  lemma {:induction false} DrainKeeps(d: Decoder)
    requires d.buffer >= 0 && d.bitCount >= 0
    ensures Drain(d).buffer == d.buffer && 0 <= Drain(d).bitCount < 8
    decreases d.bitCount
  {
    if d.bitCount >= 8 {
      DrainKeeps(d.(bytes := d.bytes + [ByteAt(d.buffer, d.bitCount - 8)], bitCount := d.bitCount - 8));
    }
  }

  /** The digits of the text up to the first `=`, or the first character not in the alphabet. */
  function Digits(input: string): Result<seq<Digit>, char> {
    if input == "" || input[0] == '=' then Ok([])
    else
      match DigitOf(input[0])
      case None => Err(input[0])
      case Some(d) =>
        match Digits(input[1..])
        case Ok(rest) => Ok([d] + rest)
        case Err(c) => Err(c)
  }

  function InvalidCharacter(c: char): string {
    "invalid base64url character '" + [c] + "'"
  }

  function PushAll(digits: seq<Digit>): (d: Decoder)
    ensures d.buffer >= 0 && d.bitCount >= 0
  {
    if digits == [] then Decoder([], 0, 0)
    else
      var d := PushAll(digits[..|digits| - 1]);
      var v := digits[|digits| - 1];
      DrainKeeps(d.(buffer := Shift(d.buffer, v), bitCount := d.bitCount + 6));
      Push(d, v)
  }

  function Decode(input: string): Result<seq<Byte>, string> {
    match Digits(input)
    case Err(c) => Err(InvalidCharacter(c))
    case Ok(digits) => Ok(PushAll(digits).bytes)
  }

  lemma {:induction false} DigitsAt(input: string, i: nat)
    requires i <= |input|
    requires forall j :: 0 <= j < i ==> input[j] != '=' && DigitOf(input[j]).Some?
    ensures Digits(input[i..]).Err? ==> Digits(input) == Digits(input[i..])
    ensures Digits(input[i..]).Ok? ==>
              && Digits(input).Ok?
              && |Digits(input).value| == i + |Digits(input[i..]).value|
              && (forall j :: 0 <= j < i ==> Some(Digits(input).value[j]) == DigitOf(input[j]))
              && Digits(input).value[i..] == Digits(input[i..]).value
  {
    if i > 0 {
      DigitsAt(input[1..], i - 1);
      assert input[1..][i - 1..] == input[i..];
      assert forall j :: 1 <= j < i ==> input[j] == input[1..][j - 1];
    }
  }

  /** The source's loop, with its inner loop over whole bytes. */
  method DecodeBase64Url(input: string) returns (r: Result<seq<Byte>, string>)
    ensures r == Decode(input)
  {
    var bytes: seq<Byte>, buffer: int, bitCount: int := [], 0, 0;
    ghost var digits: seq<Digit> := [];
    var i := 0;
    while i < |input|
      invariant 0 <= i <= |input| && |digits| == i
      invariant forall j :: 0 <= j < i ==> input[j] != '=' && DigitOf(input[j]) == Some(digits[j])
      invariant Decoder(bytes, buffer, bitCount) == PushAll(digits)
    {
      if input[i] == '=' {
        break;
      }
      var value := DigitOf(input[i]);
      if value.None? {
        DigitsAt(input, i);
        return Err(InvalidCharacter(input[i]));
      }
      ghost var before := PushAll(digits);
      buffer := Shift(buffer, value.value);
      bitCount := bitCount + 6;
      while bitCount >= 8
        invariant buffer >= 0 && bitCount >= 0
        invariant Drain(Decoder(bytes, buffer, bitCount)) == Push(before, value.value)
      {
        bitCount := bitCount - 8;
        bytes := bytes + [ByteAt(buffer, bitCount)];
      }
      ghost var longer := digits + [value.value];
      assert longer[..i] == digits;
      digits := longer;
      i := i + 1;
    }
    DigitsAt(input, i);
    assert Digits(input[i..]) == Ok([]);
    assert Digits(input).value == digits;
    return Ok(bytes);
  }

  // ---------- what it decodes to ----------

  /** The number a digit sequence denotes, in base 64. */
  function DigitsValue(digits: seq<Digit>): nat {
    if digits == [] then 0 else DigitsValue(digits[..|digits| - 1]) * 64 + digits[|digits| - 1]
  }

  /** The number a byte sequence denotes, in base 256. */
  function BytesValue(bytes: seq<Byte>): nat {
    if bytes == [] then 0 else BytesValue(bytes[..|bytes| - 1]) * 256 + bytes[|bytes| - 1]
  }

  /** The bits left over after the last whole byte, as a divisor: 1, 4, 16 or 64. */
  function Leftover(digitCount: nat): nat {
    match digitCount % 4
    case 0 => 1
    case 1 => 64
    case 2 => 16
    case _ => 4
  }

  /** The first `6n/8` bytes of the `6n` bits, and nothing of what comes after. */
  ghost predicate IsDecoding(bytes: seq<Byte>, digits: seq<Digit>) {
    |bytes| == 6 * |digits| / 8 && BytesValue(bytes) == DigitsValue(digits) / Leftover(|digits|)
  }

  lemma PowerValues()
    ensures PowerOfTwo(0) == 1 && PowerOfTwo(2) == 4 && PowerOfTwo(4) == 16
  {
  }

  lemma ShiftWraps(n: nat, buffer: nat, value: Digit)
    requires buffer == n % MODULUS
    ensures Shift(buffer, value) == (n * 64 + value) % MODULUS
  {
  }

  lemma Quotient(n: int, d: int, q: int, r: int)
    requires d in {1, 3, 4, 16, 64, 256} && n == q * d + r && 0 <= r < d
    ensures n / d == q && n % d == r
  {
  }

  lemma LowByte(y: int, a: int)
    ensures (256 * y + a) % 256 == a % 256
  {
  }

  /** A byte cut from the wrapped buffer is the byte cut from the whole number. */
  lemma ByteFromBuffer(n: nat, buffer: nat, bits: nat)
    requires buffer == n % MODULUS
    requires bits == 0 || bits == 2 || bits == 4
    ensures PowerOfTwo(bits) > 0 && ByteAt(buffer, bits) == (n / PowerOfTwo(bits)) % 256
  {
    PowerValues();
    var q := n / MODULUS;
    assert n == q * 0x1_0000_0000 + buffer;
    if bits == 0 {
      LowByte(q * 0x100_0000, buffer);
    } else if bits == 2 {
      Quotient(n, 4, q * 0x4000_0000 + buffer / 4, buffer % 4);
      LowByte(q * 0x40_0000, buffer / 4);
    } else {
      Quotient(n, 16, q * 0x1000_0000 + buffer / 16, buffer % 16);
      LowByte(q * 0x10_0000, buffer / 16);
    }
  }

  /** State of the decoder after `n` digits of value `value`: the whole bytes are out, and the
      buffer is the value modulo 2^32. */
  ghost predicate Holds(d: Decoder, value: nat, n: nat) {
    && |d.bytes| == 6 * n / 8
    && BytesValue(d.bytes) == value / Leftover(n)
    && d.buffer == value % MODULUS
    && d.bitCount == 6 * n % 8
  }

  lemma PushHolds(d: Decoder, value: nat, n: nat, v: Digit)
    requires Holds(d, value, n)
    ensures d.buffer >= 0 && Holds(Push(d, v), value * 64 + v, n + 1)
  {
    ShiftWraps(value, d.buffer, v);
    BitsAfter(n);
    BitsAfter(n + 1);
    var next := d.(buffer := Shift(d.buffer, v), bitCount := d.bitCount + 6);
    if n % 4 == 0 {
      Quotient(value * 64 + v, 64, value, v);
    } else {
      DrainOnce(next, value * 64 + v, d.bitCount - 2);
      PushOnce(value, v, n, d.bytes);
    }
  }

  lemma {:induction false} PushAllMeaning(digits: seq<Digit>)
    ensures Holds(PushAll(digits), DigitsValue(digits), |digits|)
  {
    if digits != [] {
      var n := |digits| - 1;
      PushAllMeaning(digits[..n]);
      PushHolds(PushAll(digits[..n]), DigitsValue(digits[..n]), n, digits[n]);
    }
  }

  lemma DrainOnce(next: Decoder, value: nat, bits: nat)
    requires next.bitCount == bits + 8 && (bits == 0 || bits == 2 || bits == 4)
    requires next.buffer == value % MODULUS
    ensures PowerOfTwo(bits) > 0
    ensures Drain(next) == Decoder(next.bytes + [(value / PowerOfTwo(bits)) % 256], next.buffer, bits)
  {
    PowerPositive(bits);
    ByteFromBuffer(value, next.buffer, bits);
  }

  /** A new digit after one, two or three others in its group completes a byte. */
  lemma CompletesByte(front: nat, v: Digit)
    ensures var value := front * 64 + v;
            && value / 16 == front / 64 * 256 + (value / 16) % 256
            && value / 4 == front / 16 * 256 + (value / 4) % 256
            && value == front / 4 * 256 + value % 256
  {
    var value := front * 64 + v;
    var a, b := front / 64, front % 64;
    Quotient(value, 16, a * 256 + b * 4 + v / 16, v % 16);
    Quotient(a * 256 + (b * 4 + v / 16), 256, a, b * 4 + v / 16);
    var c, d := front / 16, front % 16;
    Quotient(value, 4, c * 256 + d * 16 + v / 4, v % 4);
    Quotient(c * 256 + (d * 16 + v / 4), 256, c, d * 16 + v / 4);
    var e, f := front / 4, front % 4;
    Quotient(value, 256, e, f * 64 + v);
  }

  lemma BitsAfter(n: nat)
    ensures 6 * n % 8 == if n % 4 == 0 then 0 else if n % 4 == 1 then 6 else if n % 4 == 2 then 4 else 2
    ensures 6 * n / 8 == 3 * (n / 4) + (if n % 4 < 2 then 0 else n % 4 - 1)
  {
  }

  /** Appending the byte that the new digit completes. */
  lemma PushOnce(front: nat, v: Digit, n: nat, bytes: seq<Byte>)
    requires n % 4 != 0
    requires |bytes| == 6 * n / 8 && BytesValue(bytes) == front / Leftover(n)
    ensures var value, bits := front * 64 + v, 6 * n % 8 - 2;
            && (bits == 0 || bits == 2 || bits == 4)
            && PowerOfTwo(bits) > 0
            && var all := bytes + [(value / PowerOfTwo(bits)) % 256];
               |all| == 6 * (n + 1) / 8 && BytesValue(all) == value / Leftover(n + 1)
  {
    PowerValues();
    BitsAfter(n);
    BitsAfter(n + 1);
    CompletesByte(front, v);
    var value, bits := front * 64 + v, 6 * n % 8 - 2;
    BytesValueSnoc(bytes, (value / PowerOfTwo(bits)) % 256);
  }

  ghost predicate InAlphabet(c: char) {
    exists d: Digit :: CharOf(d) == c
  }

  lemma AlphabetHasDigits(c: char)
    ensures InAlphabet(c) <==> DigitOf(c).Some?
    ensures DigitOf(c).Some? ==> CharOf(DigitOf(c).value) == c
  {
    if DigitOf(c).Some? {
      var d := DigitOf(c).value;
      assert CharOf(d) == c;
    }
  }

  /** The part that is decoded: everything before the first `=`, or the whole text. */
  ghost predicate IsPayload(input: string, n: nat) {
    && n <= |input|
    && (n == |input| || input[n] == '=')
    && forall j :: 0 <= j < n ==> input[j] != '='
  }

  /** `digits` are what the first characters of the text stand for. */
  ghost predicate Spells(input: string, digits: seq<Digit>) {
    |digits| <= |input| && forall j :: 0 <= j < |digits| ==> input[j] == CharOf(digits[j])
  }

  /** `c` is the first character of the payload outside the alphabet. */
  ghost predicate FirstInvalid(input: string, n: nat, c: char)
    requires n <= |input|
  {
    exists j :: 0 <= j < n && input[j] == c && !InAlphabet(c) && forall i :: 0 <= i < j ==> InAlphabet(input[i])
  }

  lemma {:induction false} DigitsMeaning(input: string, n: nat)
    requires IsPayload(input, n)
    ensures Digits(input).Ok? ==> |Digits(input).value| == n && Spells(input, Digits(input).value)
    ensures Digits(input).Err? ==> FirstInvalid(input, n, Digits(input).error)
  {
    if n > 0 {
      AlphabetHasDigits(input[0]);
      var rest := input[1..];
      if InAlphabet(input[0]) {
        assert forall j :: 0 <= j < n - 1 ==> rest[j] == input[j + 1];
        DigitsMeaning(rest, n - 1);
        if Digits(rest).Err? {
          var c := Digits(rest).error;
          var j :| 0 <= j < n - 1 && rest[j] == c && !InAlphabet(c) && forall i :: 0 <= i < j ==> InAlphabet(rest[i]);
          assert input[j + 1] == c;
          forall i | 0 <= i < j + 1 ensures InAlphabet(input[i]) {
            assert i > 0 ==> input[i] == rest[i - 1];
          }
        }
      }
    }
  }

  /** A text is accepted exactly if every character before the first `=` is in the alphabet, and
      otherwise the error names the first that is not. The output is the leading bytes of the
      bits those characters stand for: nothing shifted out of the 32-bit buffer is missed. */
  lemma DecodeMeaning(input: string, n: nat)
    requires IsPayload(input, n)
    ensures Decode(input).Ok? <==> forall j :: 0 <= j < n ==> InAlphabet(input[j])
    ensures Decode(input).Ok? ==>
              exists digits :: |digits| == n && Spells(input, digits) && IsDecoding(Decode(input).value, digits)
    ensures Decode(input).Err? ==>
              exists c :: FirstInvalid(input, n, c) && Decode(input) == Err(InvalidCharacter(c))
  {
    DigitsMeaning(input, n);
    if Digits(input).Ok? {
      var digits := Digits(input).value;
      PushAllMeaning(digits);
      assert IsDecoding(Decode(input).value, digits);
      forall j | 0 <= j < n ensures InAlphabet(input[j]) {
        assert CharOf(digits[j]) == input[j];
      }
    } else {
      assert FirstInvalid(input, n, Digits(input).error);
    }
  }

  // ---------- the encoding of RFC 4648 ----------

  /** One group of one to three bytes, padded with zero bits. */
  function EncodeGroup(g: seq<Byte>): seq<Digit>
    requires 1 <= |g| <= 3
  {
    if |g| == 1 then [g[0] / 4, g[0] % 4 * 16]
    else if |g| == 2 then [g[0] / 4, g[0] % 4 * 16 + g[1] / 16, g[1] % 16 * 4]
    else [g[0] / 4, g[0] % 4 * 16 + g[1] / 16, g[1] % 16 * 4 + g[2] / 64, g[2] % 64]
  }

  function LastGroup(n: nat): nat
    requires n > 0
  {
    if n % 3 == 0 then 3 else n % 3
  }

  /** Groups of three from the start; only the last may be shorter. */
  function Encode(bytes: seq<Byte>): seq<Digit> {
    if bytes == [] then []
    else
      var k := |bytes| - LastGroup(|bytes|);
      Encode(bytes[..k]) + EncodeGroup(bytes[k..])
  }

  function EncodeText(bytes: seq<Byte>): string {
    var digits := Encode(bytes);
    seq(|digits|, i requires 0 <= i < |digits| => CharOf(digits[i]))
  }

  lemma DigitsValueSnoc(digits: seq<Digit>, d: Digit)
    ensures DigitsValue(digits + [d]) == DigitsValue(digits) * 64 + d
  {
  }

  lemma BytesValueSnoc(bytes: seq<Byte>, b: Byte)
    ensures BytesValue(bytes + [b]) == BytesValue(bytes) * 256 + b
  {
  }

  /** The arithmetic of one group, on the value of what precedes it. */
  lemma GroupArithmetic(x: nat, g0: Byte, g1: Byte, g2: Byte)
    ensures (x * 64 + g0 / 4) * 64 + g0 % 4 * 16 == (x * 256 + g0) * 16
    ensures ((x * 64 + g0 / 4) * 64 + (g0 % 4 * 16 + g1 / 16)) * 64 + g1 % 16 * 4 == ((x * 256 + g0) * 256 + g1) * 4
    ensures (((x * 64 + g0 / 4) * 64 + (g0 % 4 * 16 + g1 / 16)) * 64 + (g1 % 16 * 4 + g2 / 64)) * 64 + g2 % 64 ==
            ((x * 256 + g0) * 256 + g1) * 256 + g2
  {
  }

  function SnocAll(digits: seq<Digit>, more: seq<Digit>): nat {
    if more == [] then DigitsValue(digits) else SnocAll(digits, more[..|more| - 1]) * 64 + more[|more| - 1]
  }

  lemma {:induction false} DigitsValueConcat(digits: seq<Digit>, more: seq<Digit>)
    ensures DigitsValue(digits + more) == SnocAll(digits, more)
  {
    if more == [] {
      assert digits + more == digits;
    } else {
      var n := |more| - 1;
      DigitsValueConcat(digits, more[..n]);
      DigitsValueSnoc(digits + more[..n], more[n]);
      assert digits + more == digits + more[..n] + [more[n]];
    }
  }

  lemma GroupDigits(digits: seq<Digit>, g: seq<Byte>)
    requires 1 <= |g| <= 3
    ensures var x, e := DigitsValue(digits), EncodeGroup(g);
            DigitsValue(digits + e) ==
            if |g| == 1 then (x * 64 + e[0]) * 64 + e[1]
            else if |g| == 2 then ((x * 64 + e[0]) * 64 + e[1]) * 64 + e[2]
            else (((x * 64 + e[0]) * 64 + e[1]) * 64 + e[2]) * 64 + e[3]
  {
    var e := EncodeGroup(g);
    DigitsValueConcat(digits, e);
    assert e[..2][..1] == e[..1] && e[..1][..0] == e[..0] == [];
    assert e[..2] == [e[0], e[1]] && e[..1] == [e[0]];
    if |g| >= 2 {
      assert e[..3][..2] == e[..2];
    }
    assert e[..|e|] == e;
    assert SnocAll(digits, e[..1]) == DigitsValue(digits) * 64 + e[0];
    assert SnocAll(digits, e[..2]) == SnocAll(digits, e[..1]) * 64 + e[1];
  }

  lemma GroupBytes(bytes: seq<Byte>, g: seq<Byte>)
    requires 1 <= |g| <= 3
    ensures var x := BytesValue(bytes);
            BytesValue(bytes + g) ==
            if |g| == 1 then x * 256 + g[0]
            else if |g| == 2 then (x * 256 + g[0]) * 256 + g[1]
            else ((x * 256 + g[0]) * 256 + g[1]) * 256 + g[2]
  {
    BytesValueSnoc(bytes, g[0]);
    if |g| == 1 {
      assert bytes + g == bytes + [g[0]];
    } else {
      BytesValueSnoc(bytes + [g[0]], g[1]);
      if |g| == 2 {
        assert bytes + g == bytes + [g[0]] + [g[1]];
      } else {
        BytesValueSnoc(bytes + [g[0]] + [g[1]], g[2]);
        assert bytes + g == bytes + [g[0]] + [g[1]] + [g[2]];
      }
    }
  }

  lemma GroupValue(digits: seq<Digit>, bytes: seq<Byte>, g: seq<Byte>)
    requires 1 <= |g| <= 3
    requires DigitsValue(digits) == BytesValue(bytes)
    ensures DigitsValue(digits + EncodeGroup(g)) ==
            BytesValue(bytes + g) * (if |g| == 1 then 16 else if |g| == 2 then 4 else 1)
  {
    GroupDigits(digits, g);
    GroupBytes(bytes, g);
    GroupArithmetic(DigitsValue(digits), g[0], if |g| > 1 then g[1] else 0, if |g| > 2 then g[2] else 0);
  }

  /** The encoding denotes the bytes' number, shifted left by the padding bits. */
  lemma {:induction false} EncodeValue(bytes: seq<Byte>)
    ensures |Encode(bytes)| == 4 * (|bytes| / 3) + (if |bytes| % 3 == 0 then 0 else |bytes| % 3 + 1)
    ensures DigitsValue(Encode(bytes)) ==
            BytesValue(bytes) * (if |bytes| % 3 == 1 then 16 else if |bytes| % 3 == 2 then 4 else 1)
  {
    if bytes != [] {
      var k := |bytes| - LastGroup(|bytes|);
      assert k % 3 == 0;
      EncodeValue(bytes[..k]);
      GroupValue(Encode(bytes[..k]), bytes[..k], bytes[k..]);
      assert bytes[..k] + bytes[k..] == bytes;
    }
  }

  lemma {:induction false} BytesValueInjective(a: seq<Byte>, b: seq<Byte>)
    requires |a| == |b| && BytesValue(a) == BytesValue(b)
    ensures a == b
  {
    if a != [] {
      var n := |a| - 1;
      BytesValueInjective(a[..n], b[..n]);
      assert a == a[..n] + [a[n]] && b == b[..n] + [b[n]];
    }
  }

  lemma {:induction false} DigitsValueInjective(a: seq<Digit>, b: seq<Digit>)
    requires |a| == |b| && DigitsValue(a) == DigitsValue(b)
    ensures a == b
  {
    if a != [] {
      var n := |a| - 1;
      DigitsValueInjective(a[..n], b[..n]);
      assert a == a[..n] + [a[n]] && b == b[..n] + [b[n]];
    }
  }

  lemma EncodingDecodes(bytes: seq<Byte>)
    ensures IsDecoding(bytes, Encode(bytes))
  {
    EncodeValue(bytes);
    var n, m, d := |bytes|, |bytes| / 3, |Encode(bytes)|;
    BitsAfter(d);
    if n % 3 == 1 {
      assert d / 4 == m && d % 4 == 2;
    } else if n % 3 == 2 {
      assert d / 4 == m && d % 4 == 3;
    } else {
      assert d / 4 == m && d % 4 == 0;
    }
    Quotient(DigitsValue(Encode(bytes)), Leftover(d), BytesValue(bytes), 0);
  }

  lemma {:induction false} DigitsOfText(digits: seq<Digit>, text: string, padding: string)
    requires |text| == |digits| && forall i :: 0 <= i < |digits| ==> text[i] == CharOf(digits[i])
    requires padding == "" || padding[0] == '='
    ensures Digits(text + padding) == Ok(digits)
  {
    if digits == [] {
      assert text + padding == padding;
    } else {
      DigitsOfText(digits[1..], text[1..], padding);
      assert (text + padding)[0] == text[0] && (text + padding)[1..] == text[1..] + padding;
      assert digits == [digits[0]] + digits[1..];
    }
  }

  /** Decoding inverts encoding for every byte sequence, with or without padding. */
  lemma DecodeInvertsEncode(bytes: seq<Byte>, padding: string)
    requires padding == "" || padding[0] == '='
    ensures Decode(EncodeText(bytes) + padding) == Ok(bytes)
  {
    var digits := Encode(bytes);
    DigitsOfText(digits, EncodeText(bytes), padding);
    PushAllMeaning(digits);
    EncodingDecodes(bytes);
    BytesValueInjective(PushAll(digits).bytes, bytes);
  }

  /** Encoding the decoded bytes gives the digits back exactly if no digit stands alone in the
      last group and the leftover bits are zero; the decoder accepts the other texts too. */
  lemma EncodeInvertsDecode(digits: seq<Digit>)
    ensures Encode(PushAll(digits).bytes) == digits <==>
            |digits| % 4 != 1 && DigitsValue(digits) % Leftover(|digits|) == 0
  {
    PushAllMeaning(digits);
    var bytes, n := PushAll(digits).bytes, |digits|;
    EncodeValue(bytes);
    BitsAfter(n);
    LengthsAgree(n, |bytes|);
    var value, unit := DigitsValue(digits), Leftover(n);
    if n % 4 != 1 {
      assert DigitsValue(Encode(bytes)) == value / unit * unit;
      Remainder(value, unit);
      if value % unit == 0 {
        DigitsValueInjective(Encode(bytes), digits);
      }
    }
  }

  lemma Remainder(n: nat, d: nat)
    requires d > 0
    ensures n / d * d == n <==> n % d == 0
  {
  }

  /** How many digits come back from the whole bytes of `n` digits. */
  lemma LengthsAgree(n: nat, bytes: nat)
    requires bytes == 3 * (n / 4) + (if n % 4 < 2 then 0 else n % 4 - 1)
    ensures 4 * (bytes / 3) + (if bytes % 3 == 0 then 0 else bytes % 3 + 1) == if n % 4 == 1 then n - 1 else n
    ensures n % 4 != 1 ==> Leftover(n) == if bytes % 3 == 1 then 16 else if bytes % 3 == 2 then 4 else 1
  {
  }
}
