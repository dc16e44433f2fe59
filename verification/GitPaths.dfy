/** Decoding Git's C-style quoted paths (`unescape_git_path`, `src/utils.rs`), against the
    quoting Git applies with `core.quotePath` on. */
module GitPaths {
  import opened Basics
  import opened Utf8

  const QUOTE := '\"'
  const BACKSLASH := '\\'

  // ---------- the decoder ----------

  predicate IsOctal(c: char) {
    '0' <= c <= '7'
  }

  /** How many octal digits `s` starts with, at most `max`. */
  function OctalCount(s: string, max: nat): (k: nat)
    ensures k <= max && k <= |s|
  {
    if max == 0 || s == "" || !IsOctal(s[0]) then 0 else 1 + OctalCount(s[1..], max - 1)
  }

  function OctalValue(digits: string): int {
    if digits == "" then 0 else OctalValue(digits[..|digits| - 1]) * 8 + (digits[|digits| - 1] as int - '0' as int)
  }

  /** `u8::from_str_radix(octal, 8)`: no digits, or a value over 255, is an error and adds nothing. */
  function OctalByte(digits: string): seq<Byte> {
    if digits == "" || OctalValue(digits) < 0 || OctalValue(digits) > 255 then [] else [OctalValue(digits)]
  }

  /** The letter escapes the decoder knows. */
  function Letter(c: char): Option<Byte> {
    if c == BACKSLASH then Some(0x5C)
    else if c == QUOTE then Some(0x22)
    else if c == 'n' then Some(0x0A)
    else if c == 't' then Some(0x09)
    else if c == 'r' then Some(0x0D)
    else None
  }

  /** The bytes of one escape after its backslash, and how many characters it uses. */
  function Escape(s: string): (r: (seq<Byte>, nat))
    ensures r.1 <= |s|
  {
    if s == "" then ([0x5C], 0)
    else
      match Letter(s[0])
      case Some(b) => ([b], 1)
      case None =>
        if '0' <= s[0] <= '9' then
          var k := OctalCount(s, 3);
          (OctalByte(s[..k]), k)
        else ([0x5C], 0)
  }

  function Parse(s: string): seq<Byte>
    decreases |s|
  {
    if s == "" then []
    else if s[0] != BACKSLASH then EncodeChar(s[0]) + Parse(s[1..])
    else
      var (bytes, used) := Escape(s[1..]);
      bytes + Parse(s[1 + used..])
  }

  predicate Quoted(path: string) {
    path != "" && path[0] == QUOTE && path[|path| - 1] == QUOTE
  }

  /** None is the panic of slicing a lone quote as `[1..0]`. The bytes become a string, lossily
      where they are not UTF-8. */
  function Unescape(path: string): Option<string> {
    if !Quoted(path) then Some(path)
    else if |path| < 2 then None
    else Some(DecodeLossy(Parse(path[1..|path| - 1])))
  }

  /** The inner loop that collects up to three octal digits. */
  method TakeOctal(s: string) returns (digits: string)
    ensures digits == s[..OctalCount(s, 3)]
  {
    digits := "";
    var n := 0;
    while n < 3
      invariant 0 <= n <= 3 && n <= |s| && digits == s[..n]
      invariant OctalCount(s, 3) == n + OctalCount(s[n..], 3 - n)
    {
      if n < |s| && IsOctal(s[n]) {
        assert s[n..][1..] == s[n + 1..];
        digits := digits + [s[n]];
        n := n + 1;
      } else {
        assert OctalCount(s[n..], 3 - n) == 0;
        return;
      }
    }
  }

  /** One turn of the loop at position `i`: the bytes it pushes and where it leaves off. */
  method Turn(inner: string, i: nat) returns (pushed: seq<Byte>, next: nat)
    requires i < |inner|
    ensures i < next <= |inner|
    ensures Parse(inner[i..]) == pushed + Parse(inner[next..])
  {
    var s, rest := inner[i..], inner[i + 1..];
    assert s[1..] == rest;
    next := i + 1;
    if inner[i] != BACKSLASH {
      pushed := EncodeChar(inner[i]);
    } else if next < |inner| && Letter(inner[next]).Some? {
      pushed := [Letter(inner[next]).value];
      next := next + 1;
      assert s[2..] == inner[next..];
    } else if next < |inner| && '0' <= inner[next] <= '9' {
      var octal := TakeOctal(rest);
      pushed := OctalByte(octal);
      next := next + |octal|;
      assert s[1 + |octal|..] == inner[next..];
    } else {
      pushed := [0x5C];
    }
  }

  /** The loop over the text between the quotes. */
  method CollectBytes(inner: string) returns (bytes: seq<Byte>)
    ensures bytes == Parse(inner)
  {
    bytes := [];
    var i := 0;
    while i < |inner|
      invariant 0 <= i <= |inner|
      invariant bytes + Parse(inner[i..]) == Parse(inner)
    {
      var pushed, next := Turn(inner, i);
      assert bytes + (pushed + Parse(inner[next..])) == bytes + pushed + Parse(inner[next..]);
      bytes, i := bytes + pushed, next;
    }
    assert Parse(inner[i..]) == [] && bytes + [] == bytes;
  }

  method UnescapeGitPath(path: string) returns (r: Option<string>)
    ensures r == Unescape(path)
  {
    if !Quoted(path) {
      return Some(path);
    }
    if |path| < 2 {
      return None;
    }
    var bytes := CollectBytes(path[1..|path| - 1]);
    return Some(DecodeLossy(bytes));
  }

  // ---------- Git's quoting ----------

  function OctalDigit(n: int): char
    requires 0 <= n < 8
  {
    (n + '0' as int) as char
  }

  /** The escapes of Git's quoting, by byte. */
  function LetterFor(b: Byte): Option<char> {
    match b
    case 0x07 => Some('a')
    case 0x08 => Some('b')
    case 0x09 => Some('t')
    case 0x0A => Some('n')
    case 0x0B => Some('v')
    case 0x0C => Some('f')
    case 0x0D => Some('r')
    case 0x22 => Some(QUOTE)
    case 0x5C => Some(BACKSLASH)
    case _ => None
  }

  predicate NeedsQuoting(b: Byte) {
    b < 0x20 || b >= 0x7F || b == 0x22 || b == 0x5C
  }

  function QuoteByte(b: Byte): string {
    if !NeedsQuoting(b) then [b as char]
    else
      match LetterFor(b)
      case Some(c) => [BACKSLASH, c]
      case None => [BACKSLASH, OctalDigit(b / 64), OctalDigit(b / 8 % 8), OctalDigit(b % 8)]
  }

  function QuoteBytes(bytes: seq<Byte>): string {
    if bytes == [] then "" else QuoteByte(bytes[0]) + QuoteBytes(bytes[1..])
  }

  /** A path is quoted only if some byte needs it. */
  function GitQuote(bytes: seq<Byte>): string {
    if exists i :: 0 <= i < |bytes| && NeedsQuoting(bytes[i])
    then [QUOTE] + QuoteBytes(bytes) + [QUOTE]
    else QuoteBytes(bytes)
  }

  /** BEL, BS, VT and FF: Git writes letter escapes for them that the decoder does not know. */
  predicate UnknownEscape(b: Byte) {
    b == 0x07 || b == 0x08 || b == 0x0B || b == 0x0C
  }

  // ---------- the round trip ----------

  lemma OctalOfByte(b: Byte, rest: string)
    ensures var s := [OctalDigit(b / 64), OctalDigit(b / 8 % 8), OctalDigit(b % 8)] + rest;
            OctalCount(s, 3) == 3 && OctalByte(s[..3]) == [b]
  {
    var x, y, z := OctalDigit(b / 64), OctalDigit(b / 8 % 8), OctalDigit(b % 8);
    var s := [x, y, z] + rest;
    var s1, s2 := [y, z] + rest, [z] + rest;
    assert s[1..] == s1 && s1[1..] == s2 && s2[1..] == rest;
    assert OctalCount(rest, 0) == 0;
    assert OctalCount(s2, 1) == 1;
    assert OctalCount(s1, 2) == 2;
    assert s[..3] == [x, y, z];
    assert [x, y, z][..2] == [x, y] && [x, y][..1] == [x] && [x][..0] == "";
    assert OctalValue("") == 0;
    assert OctalValue([x]) == b / 64;
    assert OctalValue([x, y]) == b / 64 * 8 + b / 8 % 8;
    assert OctalValue([x, y, z]) == (b / 64 * 8 + b / 8 % 8) * 8 + b % 8;
    assert b / 8 == b / 64 * 8 + b / 8 % 8;
  }

  lemma ParseKnownLetter(c: char, rest: string)
    requires Letter(c).Some?
    ensures Parse([BACKSLASH, c] + rest) == [Letter(c).value] + Parse(rest)
  {
  }

  lemma ParseUnknownLetter(c: char, rest: string)
    requires Letter(c).None? && !('0' <= c <= '9') && c as int < 0x80
    ensures Parse([BACKSLASH, c] + rest) == [0x5C, c as int] + Parse(rest)
  {
  }

  lemma ParseLetter(b: Byte, rest: string)
    requires LetterFor(b).Some?
    ensures !UnknownEscape(b) ==> Parse(QuoteByte(b) + rest) == [b] + Parse(rest)
    ensures UnknownEscape(b) ==> Parse(QuoteByte(b) + rest) == [0x5C, LetterFor(b).value as int] + Parse(rest)
  {
    var c := LetterFor(b).value;
    if UnknownEscape(b) {
      ParseUnknownLetter(c, rest);
    } else {
      ParseKnownLetter(c, rest);
    }
  }

  lemma ParseOctal(b: Byte, rest: string)
    requires NeedsQuoting(b) && LetterFor(b).None?
    ensures Parse(QuoteByte(b) + rest) == [b] + Parse(rest)
  {
    var s := QuoteByte(b) + rest;
    OctalOfByte(b, rest);
    assert s[0] == BACKSLASH;
    assert s[1..] == [OctalDigit(b / 64), OctalDigit(b / 8 % 8), OctalDigit(b % 8)] + rest;
    assert s[4..] == rest;
    assert Escape(s[1..]) == ([b], 3);
  }

  lemma ParsePlain(b: Byte, rest: string)
    requires !NeedsQuoting(b)
    ensures Parse(QuoteByte(b) + rest) == [b] + Parse(rest)
  {
    ParseChar(b as char, rest);
    assert EncodeChar(b as char) == [b];
  }

  /** Decoding one quoted byte gives the byte; a byte with an unknown letter gives two. */
  lemma ParseQuotedByte(b: Byte, rest: string)
    ensures !UnknownEscape(b) ==> Parse(QuoteByte(b) + rest) == [b] + Parse(rest)
    ensures UnknownEscape(b) ==> exists c: Byte :: Parse(QuoteByte(b) + rest) == [0x5C, c] + Parse(rest)
  {
    if !NeedsQuoting(b) {
      ParsePlain(b, rest);
    } else if LetterFor(b).Some? {
      ParseLetter(b, rest);
    } else {
      ParseOctal(b, rest);
    }
  }

  lemma {:induction false} ParseQuotedBytes(bytes: seq<Byte>)
    ensures (forall i :: 0 <= i < |bytes| ==> !UnknownEscape(bytes[i])) ==> Parse(QuoteBytes(bytes)) == bytes
    ensures |Parse(QuoteBytes(bytes))| >= |bytes|
    ensures (exists i :: 0 <= i < |bytes| && UnknownEscape(bytes[i])) ==> |Parse(QuoteBytes(bytes))| > |bytes|
  {
    if bytes != [] {
      ParseQuotedBytes(bytes[1..]);
      ParseQuotedByte(bytes[0], QuoteBytes(bytes[1..]));
      assert bytes == [bytes[0]] + bytes[1..];
      assert forall i :: 1 <= i < |bytes| ==> bytes[i] == bytes[1..][i - 1];
      if exists i :: 0 <= i < |bytes| && UnknownEscape(bytes[i]) {
        var i :| 0 <= i < |bytes| && UnknownEscape(bytes[i]);
        assert i > 0 ==> UnknownEscape(bytes[1..][i - 1]);
      }
    }
  }

  lemma {:induction false} PlainBytes(bytes: seq<Byte>)
    requires forall i :: 0 <= i < |bytes| ==> !NeedsQuoting(bytes[i])
    ensures Encode(QuoteBytes(bytes)) == bytes
    ensures bytes != [] ==> QuoteBytes(bytes) != "" && QuoteBytes(bytes)[0] != QUOTE
  {
    if bytes != [] {
      PlainBytes(bytes[1..]);
      assert QuoteByte(bytes[0]) == [bytes[0] as char];
      assert QuoteBytes(bytes)[1..] == QuoteBytes(bytes[1..]);
      assert bytes == [bytes[0]] + bytes[1..];
    }
  }

  // ---------- any quoted text ----------

  /** A character other than a backslash stands for itself. */
  lemma ParseChar(c: char, rest: string)
    requires c != BACKSLASH
    ensures Parse([c] + rest) == EncodeChar(c) + Parse(rest)
  {
    assert ([c] + rest)[0] == c && ([c] + rest)[1..] == rest;
  }

  lemma Associative(a: seq<Byte>, b: seq<Byte>, c: seq<Byte>)
    ensures a + (b + c) == a + b + c
  {
  }

  /** And so does text without one, whatever its characters. */
  lemma {:induction false} ParseText(text: string, rest: string)
    requires BACKSLASH !in text
    ensures Parse(text + rest) == Encode(text) + Parse(rest)
  {
    if text == "" {
      assert text + rest == rest;
      assert Encode(text) == [];
    } else {
      var c, tail := text[0], text[1..];
      assert text == [c] + tail && text + rest == [c] + (tail + rest);
      ParseText(tail, rest);
      ParseChar(c, tail + rest);
      EncodeCons(c, tail);
      Associative(EncodeChar(c), Encode(tail), Parse(rest));
    }
  }

  /** So a quoted path without a backslash comes back as it is between the quotes. */
  lemma UnescapeQuotedText(text: string)
    requires BACKSLASH !in text
    ensures Unescape([QUOTE] + text + [QUOTE]) == Some(text)
  {
    var path := [QUOTE] + text + [QUOTE];
    assert path[0] == QUOTE && path[|path| - 1] == QUOTE && path[1..|path| - 1] == text;
    ParseText(text, "");
    assert text + "" == text && Encode(text) + [] == Encode(text);
    DecodeInvertsEncode(text);
  }

  /** The number that one to three octal digits denote. */
  function Octal(digits: string): int {
    match |digits|
    case 1 => digits[0] as int - 48
    case 2 => (digits[0] as int - 48) * 8 + (digits[1] as int - 48)
    case 3 => (digits[0] as int - 48) * 64 + (digits[1] as int - 48) * 8 + (digits[2] as int - 48)
    case _ => 0
  }

  /** The octal digits that an escape takes: three, or fewer before something else. */
  ghost predicate OctalRun(digits: string, rest: string) {
    && 1 <= |digits| <= 3
    && (forall i :: 0 <= i < |digits| ==> '0' <= digits[i] <= '7')
    && (|digits| < 3 ==> rest == "" || !('0' <= rest[0] <= '7'))
  }

  /** An octal escape gives the byte it denotes, and nothing if that is over 255. */
  lemma ParseOctalRun(digits: string, rest: string)
    requires OctalRun(digits, rest)
    ensures Parse([BACKSLASH] + digits + rest) ==
            (if Octal(digits) <= 255 then [Octal(digits)] else []) + Parse(rest)
  {
    var s := [BACKSLASH] + digits + rest;
    var tail := digits + rest;
    assert s[0] == BACKSLASH && s[1..] == tail;
    OctalRunCount(digits, rest, 3);
    OctalRunValue(digits);
    assert tail[..|digits|] == digits && s[1 + |digits|..] == rest;
    assert Letter(tail[0]).None? && '0' <= tail[0] <= '9';
    assert Escape(tail) == (OctalByte(digits), |digits|);
  }

  lemma {:induction false} OctalRunCount(digits: string, rest: string, max: nat)
    requires |digits| <= max && forall i :: 0 <= i < |digits| ==> '0' <= digits[i] <= '7'
    requires |digits| < max ==> rest == "" || !('0' <= rest[0] <= '7')
    ensures OctalCount(digits + rest, max) == |digits|
  {
    if digits == "" {
      assert digits + rest == rest;
    } else {
      OctalRunCount(digits[1..], rest, max - 1);
      assert (digits + rest)[1..] == digits[1..] + rest;
    }
  }

  lemma OctalRunValue(digits: string)
    requires 1 <= |digits| <= 3 && forall i :: 0 <= i < |digits| ==> '0' <= digits[i] <= '7'
    ensures OctalValue(digits) == Octal(digits)
  {
    assert digits[..1] == [digits[0]] && [digits[0]][..0] == "";
    assert OctalValue([digits[0]]) == digits[0] as int - 48;
    if |digits| >= 2 {
      assert digits[..2] == [digits[0], digits[1]] && [digits[0], digits[1]][..1] == [digits[0]];
      assert OctalValue(digits[..2]) == OctalValue(digits[..1]) * 8 + (digits[1] as int - 48);
    }
    assert digits[..|digits|] == digits;
  }

  /** What may follow a backslash as an escape. */
  predicate IsEscape(c: char) {
    c == BACKSLASH || c == QUOTE || c == 'n' || c == 't' || c == 'r' || '0' <= c <= '7'
  }

  /** A backslash before `8` or `9` is dropped; before anything else that is no escape, or at the
      end, it stays. */
  lemma ParseStrayBackslash(rest: string)
    requires rest == "" || !IsEscape(rest[0])
    ensures Parse([BACKSLASH] + rest) ==
            (if rest != "" && (rest[0] == '8' || rest[0] == '9') then [] else [0x5C]) + Parse(rest)
  {
    assert ([BACKSLASH] + rest)[1..] == rest;
    assert rest[0..] == rest;
    assert rest != "" && (rest[0] == '8' || rest[0] == '9') ==> OctalCount(rest, 3) == 0 && rest[..0] == "";
  }

  // ---------- the theorems ----------

  ghost predicate KnownEscapes(bytes: seq<Byte>) {
    forall i :: 0 <= i < |bytes| ==> !UnknownEscape(bytes[i])
  }

  /** Unquoting a quoted path gives a string with the path's bytes exactly for paths in UTF-8
      without BEL, BS, VT and FF. */
  lemma UnescapeInvertsQuote(bytes: seq<Byte>)
    ensures var r := Unescape(GitQuote(bytes));
            r.Some? && (Encode(r.value) == bytes <==> Valid(bytes) && KnownEscapes(bytes))
  {
    if exists i :: 0 <= i < |bytes| && NeedsQuoting(bytes[i]) {
      var path := GitQuote(bytes);
      assert path[0] == QUOTE && path[|path| - 1] == QUOTE;
      assert path[1..|path| - 1] == QuoteBytes(bytes);
      ParseQuotedBytes(bytes);
      LosslessIffValid(bytes);
      LossyNeverShrinks(Parse(QuoteBytes(bytes)));
    } else {
      PlainBytes(bytes);
      LosslessIffValid(bytes);
      assert KnownEscapes(bytes);
    }
  }

  /** So for a path that is a string, the string itself comes back exactly if it has none of the
      four characters. */
  lemma UnescapeInvertsQuotedString(path: string)
    ensures Unescape(GitQuote(Encode(path))) == Some(path) <==>
            '\U{0007}' !in path && '\U{0008}' !in path && '\U{000B}' !in path && '\U{000C}' !in path
  {
    var bytes := Encode(path);
    UnescapeInvertsQuote(bytes);
    DecodeInvertsEncode(path);
    DecodeInvertsEncode(Unescape(GitQuote(bytes)).value);
    AsciiBytes(path, 0x07);
    AsciiBytes(path, 0x08);
    AsciiBytes(path, 0x0B);
    AsciiBytes(path, 0x0C);
    assert KnownEscapes(bytes) <==> 0x07 !in bytes && 0x08 !in bytes && 0x0B !in bytes && 0x0C !in bytes;
  }

  /** The decoder panics on a lone quote and on nothing else, and leaves unquoted paths alone. */
  lemma UnescapeTotal(path: string)
    ensures Unescape(path).None? <==> path == [QUOTE]
    ensures !Quoted(path) ==> Unescape(path) == Some(path)
  {
  }
}
