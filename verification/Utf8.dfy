/** UTF-8 and its lossy decoding, as Rust's `String::from_utf8` and `String::from_utf8_lossy`
    do it: each maximal part that starts no character becomes one replacement character. */
module Utf8 {
  import opened Basics

  const REPLACEMENT := '\U{FFFD}'

  // ---------- encoding ----------

  /** A continuation byte with the low six bits of `n`. */
  function Tail(n: nat): Byte {
    0x80 + n % 0x40
  }

  function EncodeChar(c: char): seq<Byte> {
    var n := c as int;
    if n < 0x80 then [n]
    else if n < 0x800 then [0xC0 + n / 0x40, Tail(n)]
    else if n < 0x10000 then [0xE0 + n / 0x40 / 0x40, Tail(n / 0x40), Tail(n)]
    else [0xF0 + n / 0x40 / 0x40 / 0x40, Tail(n / 0x40 / 0x40), Tail(n / 0x40), Tail(n)]
  }

  function Encode(s: string): seq<Byte> {
    if s == "" then [] else EncodeChar(s[0]) + Encode(s[1..])
  }

  // ---------- decoding ----------

  /** How many bytes a character with this first byte has; 0 if no character starts with it. */
  function Width(lead: Byte): nat {
    if lead < 0x80 then 1
    else if lead < 0xC2 then 0
    else if lead < 0xE0 then 2
    else if lead < 0xF0 then 3
    else if lead < 0xF5 then 4
    else 0
  }

  predicate Continues(b: Byte) {
    0x80 <= b < 0xC0
  }

  /** Neither an overlong form, nor a surrogate, nor beyond the last code point. */
  predicate SecondFits(lead: Byte, b: Byte) {
    && Continues(b)
    && (lead == 0xE0 ==> b >= 0xA0)
    && (lead == 0xED ==> b < 0xA0)
    && (lead == 0xF0 ==> b >= 0x90)
    && (lead == 0xF4 ==> b < 0x90)
  }

  /** How many bytes the decoder takes in one step: up to the first that does not fit. */
  function Taken(bytes: seq<Byte>): (n: nat)
    requires bytes != []
    ensures 1 <= n <= |bytes|
    ensures n == Width(bytes[0]) || n <= 3
  {
    var w := Width(bytes[0]);
    if w <= 1 || |bytes| < 2 || !SecondFits(bytes[0], bytes[1]) then 1
    else if w == 2 || |bytes| < 3 || !Continues(bytes[2]) then 2
    else if w == 3 || |bytes| < 4 || !Continues(bytes[3]) then 3
    else 4
  }

  /** The bytes start with a whole character. */
  predicate StartsWhole(bytes: seq<Byte>) {
    bytes != [] && Taken(bytes) == Width(bytes[0])
  }

  /** The bits of a continuation byte, appended to those before it. */
  function Join(high: int, b: Byte): int {
    high * 0x40 + (b as int - 0x80)
  }

  function CodePoint(bytes: seq<Byte>): int
    requires StartsWhole(bytes)
  {
    var lead := bytes[0] as int;
    match Width(bytes[0])
    case 1 => lead
    case 2 => Join(lead - 0xC0, bytes[1])
    case 3 => Join(Join(lead - 0xE0, bytes[1]), bytes[2])
    case _ => Join(Join(Join(lead - 0xF0, bytes[1]), bytes[2]), bytes[3])
  }

  /** Each width has its own code points, and surrogates are not among them. */
  lemma CodePointRange(bytes: seq<Byte>)
    requires StartsWhole(bytes)
    ensures var w, n := Width(bytes[0]), CodePoint(bytes);
            && (w == 1 ==> 0 <= n < 0x80)
            && (w == 2 ==> 0x80 <= n < 0x800)
            && (w == 3 ==> 0x800 <= n < 0xD800 || 0xE000 <= n < 0x10000)
            && (w == 4 ==> 0x10000 <= n < 0x110000)
  {
  }

  function CharAt(bytes: seq<Byte>): char
    requires StartsWhole(bytes)
  {
    CodePointRange(bytes);
    CodePoint(bytes) as char
  }

  /** What `from_utf8` accepts. */
  predicate Valid(bytes: seq<Byte>) {
    bytes == [] || (StartsWhole(bytes) && Valid(bytes[Taken(bytes)..]))
  }

  /** Also what `from_utf8` gives for valid bytes. */
  function DecodeLossy(bytes: seq<Byte>): string {
    if bytes == [] then ""
    else [if StartsWhole(bytes) then CharAt(bytes) else REPLACEMENT] + DecodeLossy(bytes[Taken(bytes)..])
  }

  // ---------- the round trips ----------

  lemma SplitJoin(high: nat, b: Byte)
    requires Continues(b)
    ensures Join(high, b) / 0x40 == high && Tail(Join(high, b)) == b
  {
  }

  lemma JoinSplit(n: nat)
    ensures Continues(Tail(n)) && Join(n / 0x40, Tail(n)) == n
  {
  }

  lemma EncodedCharIsWhole(c: char, rest: seq<Byte>)
    ensures var all := EncodeChar(c) + rest;
            StartsWhole(all) && Taken(all) == |EncodeChar(c)| && CharAt(all) == c
  {
    var n := c as int;
    var all := EncodeChar(c) + rest;
    JoinSplit(n);
    JoinSplit(n / 0x40);
    JoinSplit(n / 0x40 / 0x40);
    assert CodePoint(all) == n;
  }

  lemma WholeCharEncodes(bytes: seq<Byte>)
    requires StartsWhole(bytes)
    ensures EncodeChar(CharAt(bytes)) == bytes[..Taken(bytes)]
  {
    CodePointRange(bytes);
    var lead := bytes[0] as int;
    match Width(bytes[0])
    case 1 =>
    case 2 => SplitJoin(lead - 0xC0, bytes[1]);
    case 3 =>
      SplitJoin(lead - 0xE0, bytes[1]);
      SplitJoin(Join(lead - 0xE0, bytes[1]), bytes[2]);
    case _ =>
      SplitJoin(lead - 0xF0, bytes[1]);
      SplitJoin(Join(lead - 0xF0, bytes[1]), bytes[2]);
      SplitJoin(Join(Join(lead - 0xF0, bytes[1]), bytes[2]), bytes[3]);
  }

  /** Decoding inverts encoding, on every string. */
  lemma {:induction false} DecodeInvertsEncode(s: string)
    ensures Valid(Encode(s)) && DecodeLossy(Encode(s)) == s
  {
    if s != "" {
      var head, rest := EncodeChar(s[0]), Encode(s[1..]);
      EncodedCharIsWhole(s[0], rest);
      DecodeInvertsEncode(s[1..]);
      assert (head + rest)[|head|..] == rest;
      assert s == [s[0]] + s[1..];
    }
  }

  lemma EncodeCons(c: char, s: string)
    ensures Encode([c] + s) == EncodeChar(c) + Encode(s)
  {
    assert ([c] + s)[1..] == s;
  }

  /** A replacement character is never shorter than the bytes it stands for. */
  lemma {:induction false} LossyNeverShrinks(bytes: seq<Byte>)
    ensures |Encode(DecodeLossy(bytes))| >= |bytes|
  {
    if bytes != [] {
      var rest := bytes[Taken(bytes)..];
      LossyNeverShrinks(rest);
      EncodeCons(DecodeLossy(bytes)[0], DecodeLossy(rest));
      if StartsWhole(bytes) {
        WholeCharEncodes(bytes);
      }
    }
  }

  lemma ConsDecodes(bytes: seq<Byte>, n: nat, c: char, text: string)
    requires n <= |bytes| && EncodeChar(c) == bytes[..n] && Encode(text) == bytes[n..]
    ensures Encode([c] + text) == bytes
  {
    EncodeCons(c, text);
    assert bytes[..n] + bytes[n..] == bytes;
  }

  lemma {:induction false} ValidDecodes(bytes: seq<Byte>)
    requires Valid(bytes)
    ensures Encode(DecodeLossy(bytes)) == bytes
  {
    if bytes != [] {
      var n := Taken(bytes);
      ValidDecodes(bytes[n..]);
      WholeCharEncodes(bytes);
      ConsDecodes(bytes, n, CharAt(bytes), DecodeLossy(bytes[n..]));
    }
  }

  /** The lossy decoding loses nothing exactly on valid bytes, and those are the encodings. */
  lemma LosslessIffValid(bytes: seq<Byte>)
    ensures Encode(DecodeLossy(bytes)) == bytes <==> Valid(bytes)
    ensures Valid(bytes) <==> exists s :: Encode(s) == bytes
  {
    if Valid(bytes) {
      ValidDecodes(bytes);
    }
    forall s | Encode(s) == bytes ensures Valid(bytes) {
      DecodeInvertsEncode(s);
    }
  }

  /** ASCII bytes occur in an encoding only as the characters they are. */
  lemma {:induction false} AsciiBytes(s: string, b: Byte)
    requires b < 0x80
    ensures b in Encode(s) <==> b as char in s
  {
    if s != "" {
      AsciiBytes(s[1..], b);
      assert s == [s[0]] + s[1..];
      assert b in EncodeChar(s[0]) <==> b as char == s[0];
    }
  }

  // ---------- what is replaced ----------

  /** The bytes begin the encoding of some character but stop short of its end. */
  ghost predicate Begins(bytes: seq<Byte>) {
    exists c :: |bytes| < |EncodeChar(c)| && EncodeChar(c)[..|bytes|] == bytes
  }

  lemma WholeBegins(bytes: seq<Byte>, more: seq<Byte>)
    requires StartsWhole(bytes + more) && Taken(bytes + more) > |bytes|
    ensures Begins(bytes)
  {
    WholeCharEncodes(bytes + more);
    var c := CharAt(bytes + more);
    assert EncodeChar(c)[..|bytes|] == bytes;
  }

  /** One replacement stands for the longest part that begins a character, or for one byte that
      begins none. */
  lemma ReplacedPart(bytes: seq<Byte>)
    requires bytes != [] && !StartsWhole(bytes)
    ensures Taken(bytes) > 1 ==> Begins(bytes[..Taken(bytes)])
    ensures forall k :: Taken(bytes) < k <= |bytes| ==> !Begins(bytes[..k])
  {
    var n := Taken(bytes);
    if n == 2 {
      var more: seq<Byte> := if Width(bytes[0]) == 3 then [0x80] else [0x80, 0x80];
      WholeBegins(bytes[..2], more);
    } else if n == 3 {
      WholeBegins(bytes[..3], [0x80]);
    }
    forall k | n < k <= |bytes| ensures !Begins(bytes[..k]) {
      if c :| k < |EncodeChar(c)| && EncodeChar(c)[..k] == bytes[..k] {
        EncodedCharIsWhole(c, []);
        assert EncodeChar(c) + [] == EncodeChar(c);
        PrefixTakes(EncodeChar(c), bytes, k);
      }
    }
  }

  /** Bytes that agree beyond what is taken are taken alike. */
  lemma PrefixTakes(a: seq<Byte>, b: seq<Byte>, k: nat)
    requires a != [] && b != [] && Taken(b) < k <= |b| && k <= |a| && a[..k] == b[..k]
    ensures Taken(a) == Taken(b)
  {
    assert forall i :: 0 <= i < k ==> a[i] == a[..k][i] == b[..k][i] == b[i];
  }
}
