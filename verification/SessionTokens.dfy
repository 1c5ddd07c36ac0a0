/**
 Session tokens (libs/go/auth/session_tokens.go): "v1", a canonical session id and a 32-byte
 secret in unpadded base64url (RFC 4648, section 5), joined by dots. A char stands for a byte.
 */
module SessionTokens {
  import opened Wrappers
  import Text

  type Byte = b: int | 0 <= b < 256

  /** SHA-256 in hexadecimal: any function of the secret. */
  type Hash = seq<Byte> -> string

  datatype Parsed = Parsed(sessionId: string, tokenHash: string)

  datatype Error = InvalidSessionId | NoRandomness | InvalidToken | Undecodable | InvalidSecretLength

  const VERSION: string := "v1"
  const TOKEN_SIZE: nat := 32
  const ID_LENGTH: nat := 36
  const ENCODED_LENGTH: nat := 43
  const TOKEN_LENGTH: nat := 83

  // ----- base64url without padding -----

  type Sextet = v: int | 0 <= v < 64

  function EncodeChar(v: Sextet): (c: char)
    ensures DecodeChar(c) == Some(v) && c != '.' && c != '\r' && c != '\n'
  {
    if v < 26 then ('A' as int + v) as char
    else if v < 52 then ('a' as int + v - 26) as char
    else if v < 62 then ('0' as int + v - 52) as char
    else if v == 62 then '-' else '_'
  }

  function DecodeChar(c: char): (v: Option<Sextet>) {
    if 'A' <= c <= 'Z' then Some(c as int - 'A' as int)
    else if 'a' <= c <= 'z' then Some(c as int - 'a' as int + 26)
    else if '0' <= c <= '9' then Some(c as int - '0' as int + 52)
    else if c == '-' then Some(62)
    else if c == '_' then Some(63)
    else None
  }

  lemma EncodeDecodeChar(c: char)
    requires DecodeChar(c).Some?
    ensures EncodeChar(DecodeChar(c).value) == c
  {}

  /** The alphabet of RFC 4648, section 5. */
  const ALPHABET: string := "ABCDEFGHIJKLMNOPQRSTUVWXYZ" + "abcdefghijklmnopqrstuvwxyz" + "0123456789" + "-_"

  lemma AlphabetExactly(v: Sextet)
    ensures |ALPHABET| == 64 && EncodeChar(v) == ALPHABET[v]
  {
    if v < 26 {
      UpperCase(v);
    } else if v < 52 {
      LowerCase(v - 26);
    } else if v < 62 {
      Decimals(v - 52);
    }
  }

  lemma UpperCase(i: nat)
    requires i < 26
    ensures "ABCDEFGHIJKLMNOPQRSTUVWXYZ"[i] == ('A' as int + i) as char
  {}

  lemma LowerCase(i: nat)
    requires i < 26
    ensures "abcdefghijklmnopqrstuvwxyz"[i] == ('a' as int + i) as char
  {}

  lemma Decimals(i: nat)
    requires i < 10
    ensures "0123456789"[i] == ('0' as int + i) as char
  {}

  // The four sextets of three bytes, and back.

  function S0(a: Byte): Sextet { a / 4 }
  function S1(a: Byte, b: Byte): Sextet { a % 4 * 16 + b / 16 }
  function S2(b: Byte, c: Byte): Sextet { b % 16 * 4 + c / 64 }
  function S3(c: Byte): Sextet { c % 64 }
  function B0(w: Sextet, x: Sextet): Byte { w * 4 + x / 16 }
  function B1(x: Sextet, y: Sextet): Byte { x % 16 * 16 + y / 4 }
  function B2(y: Sextet, z: Sextet): Byte { y % 4 * 64 + z }

  lemma BytesOfSextets(a: Byte, b: Byte, c: Byte)
    ensures B0(S0(a), S1(a, b)) == a && B1(S1(a, b), S2(b, c)) == b && B2(S2(b, c), S3(c)) == c
    ensures S1(a, 0) % 16 == 0 && S2(b, 0) % 4 == 0
  {}

  lemma SextetsOfBytes(w: Sextet, x: Sextet, y: Sextet, z: Sextet)
    ensures S0(B0(w, x)) == w && S1(B0(w, x), B1(x, y)) == x
    ensures S2(B1(x, y), B2(y, z)) == y && S3(B2(y, z)) == z
    ensures x % 16 == 0 ==> S1(B0(w, x), 0) == x
    ensures y % 4 == 0 ==> S2(B1(x, y), 0) == y
  {}

  /** Three bytes and their four sextets are one number, most significant first (RFC 4648, section 4). */
  lemma SameNumber(a: Byte, b: Byte, c: Byte)
    ensures a * 65536 + b * 256 + c == S0(a) * 262144 + S1(a, b) * 4096 + S2(b, c) * 64 + S3(c)
  {}

  function Sextets(bytes: seq<Byte>): seq<Sextet> {
    if |bytes| == 0 then []
    else if |bytes| == 1 then [S0(bytes[0]), S1(bytes[0], 0)]
    else if |bytes| == 2 then [S0(bytes[0]), S1(bytes[0], bytes[1]), S2(bytes[1], 0)]
    else [S0(bytes[0]), S1(bytes[0], bytes[1]), S2(bytes[1], bytes[2]), S3(bytes[2])] + Sextets(bytes[3..])
  }

  /** Strict: the bits beyond the last byte must be zero (RFC 4648, section 3.5). */
  function Bytes(s: seq<Sextet>): Option<seq<Byte>> {
    if |s| == 0 then Some([])
    else if |s| == 1 then None
    else if |s| == 2 then (if s[1] % 16 != 0 then None else Some([B0(s[0], s[1])]))
    else if |s| == 3 then (if s[2] % 4 != 0 then None else Some([B0(s[0], s[1]), B1(s[1], s[2])]))
    else
      match Bytes(s[4..])
      case None => None
      case Some(rest) => Some([B0(s[0], s[1]), B1(s[1], s[2]), B2(s[2], s[3])] + rest)
  }

  function Encode(bytes: seq<Byte>): string {
    seq(|Sextets(bytes)|, i requires 0 <= i < |Sextets(bytes)| => EncodeChar(Sextets(bytes)[i]))
  }

  predicate IsBase64(s: string) {
    forall i :: 0 <= i < |s| ==> DecodeChar(s[i]).Some?
  }

  function SextetsOfText(s: string): (r: seq<Sextet>)
    requires IsBase64(s)
    ensures |r| == |s| && forall i :: 0 <= i < |s| ==> EncodeChar(r[i]) == s[i]
  {
    if s == "" then []
    else
      EncodeDecodeChar(s[0]);
      [DecodeChar(s[0]).value] + SextetsOfText(s[1..])
  }

  /** The Go decoder skips carriage returns and line feeds, in strict mode too. */
  function WithoutNewlines(s: string): (r: string)
    ensures |r| <= |s|
    ensures |r| == |s| ==> r == s
  {
    if s == "" then ""
    else if s[0] == '\r' || s[0] == '\n' then WithoutNewlines(s[1..])
    else [s[0]] + WithoutNewlines(s[1..])
  }

  function DecodeString(s: string): Option<seq<Byte>> {
    var significant := WithoutNewlines(s);
    if IsBase64(significant) then Bytes(SextetsOfText(significant)) else None
  }

  lemma {:induction false} SextetCount(bytes: seq<Byte>)
    ensures |Sextets(bytes)| == |bytes| / 3 * 4 + (if |bytes| % 3 == 0 then 0 else |bytes| % 3 + 1)
  {
    if |bytes| >= 3 { SextetCount(bytes[3..]); }
  }

  lemma {:induction false} NoNewlines(s: string)
    requires '\r' !in s && '\n' !in s
    ensures WithoutNewlines(s) == s
  {
    if s != "" {
      assert s == [s[0]] + s[1..];
      NoNewlines(s[1..]);
    }
  }

  lemma EncodeShape(bytes: seq<Byte>)
    ensures IsBase64(Encode(bytes)) && WithoutNewlines(Encode(bytes)) == Encode(bytes) && '.' !in Encode(bytes)
    ensures |Encode(bytes)| == |Sextets(bytes)| && SextetsOfText(Encode(bytes)) == Sextets(bytes)
  {
    var s, x := Encode(bytes), Sextets(bytes);
    assert forall i :: 0 <= i < |s| ==> s[i] == EncodeChar(x[i]);
    NoNewlines(s);
    var r := SextetsOfText(s);
    forall i | 0 <= i < |s| ensures r[i] == x[i] {
      assert DecodeChar(EncodeChar(r[i])) == Some(r[i]) && DecodeChar(EncodeChar(x[i])) == Some(x[i]);
    }
  }

  lemma LastSextet(a: Byte)
    ensures S1(a, 0) % 16 == 0 && B0(S0(a), S1(a, 0)) == a
  {
    BytesOfSextets(a, 0, 0);
  }

  lemma BytesOfPair(w: Sextet, x: Sextet)
    requires x % 16 == 0
    ensures Bytes([w, x]) == Some([B0(w, x)])
  {}

  lemma BytesOfOne(a: Byte)
    ensures Bytes(Sextets([a])) == Some([a])
  {
    LastSextet(a);
    BytesOfPair(S0(a), S1(a, 0));
  }

  lemma BytesOfTwo(a: Byte, b: Byte)
    ensures Bytes(Sextets([a, b])) == Some([a, b])
  {
    BytesOfSextets(a, b, 0);
    var x, y := S1(a, b), S2(b, 0);
    assert Sextets([a, b]) == [S0(a), x, y];
    assert y % 4 == 0 && B0(S0(a), x) == a && B1(x, y) == b;
  }

  lemma BytesOfTriple(a: Byte, b: Byte, c: Byte, rest: seq<Byte>)
    requires Bytes(Sextets(rest)) == Some(rest)
    ensures Bytes(Sextets([a, b, c] + rest)) == Some([a, b, c] + rest)
  {
    BytesOfSextets(a, b, c);
    var s := [S0(a), S1(a, b), S2(b, c), S3(c)];
    assert ([a, b, c] + rest)[3..] == rest;
    assert Sextets([a, b, c] + rest) == s + Sextets(rest);
    assert (s + Sextets(rest))[4..] == Sextets(rest);
  }

  /** What was split into sextets is put together again. */
  lemma {:induction false} BytesOfSextetsOf(bytes: seq<Byte>)
    ensures Bytes(Sextets(bytes)) == Some(bytes)
  {
    if |bytes| == 0 {
    } else if |bytes| == 1 {
      BytesOfOne(bytes[0]);
      assert bytes == [bytes[0]];
    } else if |bytes| == 2 {
      BytesOfTwo(bytes[0], bytes[1]);
      assert bytes == [bytes[0], bytes[1]];
    } else {
      BytesOfSextetsOf(bytes[3..]);
      BytesOfTriple(bytes[0], bytes[1], bytes[2], bytes[3..]);
      assert bytes == [bytes[0], bytes[1], bytes[2]] + bytes[3..];
    }
  }

  lemma {:induction false} ByteCount(s: seq<Sextet>)
    requires Bytes(s).Some?
    ensures |Bytes(s).value| == |s| / 4 * 3 + (if |s| % 4 == 0 then 0 else |s| % 4 - 1)
  {
    if |s| >= 4 { ByteCount(s[4..]); }
  }

  lemma SextetsOfOne(a: Byte)
    ensures Sextets([a]) == [S0(a), S1(a, 0)]
  {}

  lemma SextetsOfPair(w: Sextet, x: Sextet)
    requires x % 16 == 0
    ensures Sextets([B0(w, x)]) == [w, x]
  {
    SextetsOfOne(B0(w, x));
    SextetsOfBytes(w, x, 0, 0);
  }

  lemma SextetsOfTriple(s: seq<Sextet>)
    requires |s| == 3 && Bytes(s).Some?
    ensures Sextets(Bytes(s).value) == s
  {
    SextetsOfBytes(s[0], s[1], s[2], 0);
    var b := [B0(s[0], s[1]), B1(s[1], s[2])];
    assert Bytes(s) == Some(b);
    assert Sextets(b) == [s[0], s[1], s[2]];
  }

  lemma SextetsOfQuad(s: seq<Sextet>, rest: seq<Byte>)
    requires |s| >= 4 && Bytes(s[4..]) == Some(rest) && Sextets(rest) == s[4..]
    ensures Bytes(s).Some? && Sextets(Bytes(s).value) == s
  {
    SextetsOfBytes(s[0], s[1], s[2], s[3]);
    var b := [B0(s[0], s[1]), B1(s[1], s[2]), B2(s[2], s[3])];
    assert Bytes(s) == Some(b + rest);
    assert (b + rest)[3..] == rest;
    assert Sextets(b + rest) == [s[0], s[1], s[2], s[3]] + Sextets(rest);
    assert s == [s[0], s[1], s[2], s[3]] + s[4..];
  }

  /** Strict decoding accepts one spelling only: the encoding. */
  lemma {:induction false} SextetsOfBytesOf(s: seq<Sextet>)
    requires Bytes(s).Some?
    ensures Sextets(Bytes(s).value) == s
  {
    if |s| == 2 {
      SextetsOfPair(s[0], s[1]);
      assert s == [s[0], s[1]];
    } else if |s| == 3 {
      SextetsOfTriple(s);
    } else if |s| >= 4 {
      SextetsOfBytesOf(s[4..]);
      SextetsOfQuad(s, Bytes(s[4..]).value);
    }
  }

  lemma DecodeEncode(bytes: seq<Byte>)
    ensures DecodeString(Encode(bytes)) == Some(bytes)
  {
    EncodeShape(bytes);
    BytesOfSextetsOf(bytes);
  }

  lemma EncodeDecode(s: string)
    requires DecodeString(s).Some?
    ensures Encode(DecodeString(s).value) == WithoutNewlines(s)
    ensures |DecodeString(s).value| ==
            |WithoutNewlines(s)| / 4 * 3 + (if |WithoutNewlines(s)| % 4 == 0 then 0 else |WithoutNewlines(s)| % 4 - 1)
  {
    SextetsOfBytesOf(SextetsOfText(WithoutNewlines(s)));
    ByteCount(SextetsOfText(WithoutNewlines(s)));
  }

  // ----- Session ids -----

  predicate IsIdChar(i: nat, c: char) {
    if i in {8, 13, 18, 23} then c == '-' else '0' <= c <= '9' || 'a' <= c <= 'f'
  }

  predicate IsCanonicalId(value: string) {
    |value| == ID_LENGTH && forall i :: 0 <= i < |value| ==> IsIdChar(i, value[i])
  }

  lemma HexFrom(value: string, from: nat, n: nat)
    requires from + n <= |value|
    ensures Text.IsLowerHex(value[from..from + n], n) <==>
            forall i :: from <= i < from + n ==> '0' <= value[i] <= '9' || 'a' <= value[i] <= 'f'
  {
    var s := value[from..from + n];
    forall i | from <= i < from + n
      ensures s[i - from] == value[i]
      ensures ('0' <= value[i] <= '9' || 'a' <= value[i] <= 'f') <==> value[i] in "0123456789abcdef"
    {
      Text.LowerHexDigit(value[i]);
    }
    assert forall i :: 0 <= i < n ==> s[i] == value[from + i];
  }

  /** The five groups between the hyphens. */
  ghost predicate HasGroups(value: string, a: string, b: string, c: string, d: string, e: string) {
    && value == a + "-" + b + "-" + c + "-" + d + "-" + e
    && Text.IsLowerHex(a, 8) && Text.IsLowerHex(b, 4) && Text.IsLowerHex(c, 4) && Text.IsLowerHex(d, 4)
    && Text.IsLowerHex(e, 12)
  }

  lemma AllHexFrom(value: string)
    requires |value| == 36
    ensures IsCanonicalId(value) <==>
            && value[8] == '-' && value[13] == '-' && value[18] == '-' && value[23] == '-'
            && Text.IsLowerHex(value[..8], 8) && Text.IsLowerHex(value[9..13], 4) && Text.IsLowerHex(value[14..18], 4)
            && Text.IsLowerHex(value[19..23], 4) && Text.IsLowerHex(value[24..], 12)
  {
    HexFrom(value, 0, 8);
    HexFrom(value, 9, 4);
    HexFrom(value, 14, 4);
    HexFrom(value, 19, 4);
    HexFrom(value, 24, 12);
    assert value[24..36] == value[24..];
  }

  lemma Regroup(value: string)
    requires |value| == 36 && value[8] == '-' && value[13] == '-' && value[18] == '-' && value[23] == '-'
    ensures value ==
            value[..8] + "-" + value[9..13] + "-" + value[14..18] + "-" + value[19..23] + "-" + value[24..]
  {}

  /** Five groups of lower-case hexadecimal digits, 8-4-4-4-12, between hyphens. */
  lemma CanonicalExactly(value: string)
    ensures IsCanonicalId(value) <==> exists a, b, c, d, e :: HasGroups(value, a, b, c, d, e)
  {
    if IsCanonicalId(value) {
      AllHexFrom(value);
      Regroup(value);
      assert HasGroups(value, value[..8], value[9..13], value[14..18], value[19..23], value[24..]);
    }
    if a, b, c, d, e :| HasGroups(value, a, b, c, d, e) {
      assert |value| == 36;
      assert value[..8] == a && value[9..13] == b && value[14..18] == c && value[19..23] == d && value[24..] == e;
      AllHexFrom(value);
    }
  }

  method CanonicalSessionId(value: string) returns (ok: bool)
    ensures ok <==> IsCanonicalId(value)
  {
    if |value| != ID_LENGTH { return false; }
    var i := 0;
    while i < |value|
      invariant 0 <= i <= |value|
      invariant forall j :: 0 <= j < i ==> IsIdChar(j, value[j])
    {
      if i == 8 || i == 13 || i == 18 || i == 23 {
        if value[i] != '-' { return false; }
      } else if (value[i] < '0' || value[i] > '9') && (value[i] < 'a' || value[i] > 'f') {
        return false;
      }
      i := i + 1;
    }
    return true;
  }

  // ----- Printing and parsing -----

  function Token(sessionId: string, secret: seq<Byte>): string {
    VERSION + "." + sessionId + "." + Encode(secret)
  }

  /** strings.Split(s, ".") */
  function Split(s: string): (parts: seq<string>)
    ensures parts != []
  {
    if s == "" then [""]
    else
      var rest := Split(s[1..]);
      if s[0] == '.' then [""] + rest else [[s[0]] + rest[0]] + rest[1..]
  }

  function Parse(token: string, hash: Hash): Result<Parsed, Error> {
    if |token| != TOKEN_LENGTH then Err(InvalidToken)
    else
      var parts := Split(token);
      if |parts| != 3 || parts[0] != VERSION || !IsCanonicalId(parts[1]) then Err(InvalidToken)
      else
        match DecodeString(parts[2])
        case None => Err(Undecodable)
        case Some(secret) =>
          if |secret| != TOKEN_SIZE then Err(InvalidSecretLength)
          else Ok(Parsed(parts[1], hash(secret)))
  }

  /** Fills a buffer with random bytes, if the source has them, and prints the token. */
  method Issue(sessionId: string, random: Option<seq<Byte>>, hash: Hash) returns (r: Result<(string, string), Error>)
    requires random.Some? ==> |random.value| == TOKEN_SIZE
    ensures r == if !IsCanonicalId(sessionId) then Err(InvalidSessionId)
                 else if random.None? then Err(NoRandomness)
                 else Ok((Token(sessionId, random.value), hash(random.value)))
  {
    var ok := CanonicalSessionId(sessionId);
    if !ok { return Err(InvalidSessionId); }
    if random.None? { return Err(NoRandomness); }
    var secret := new Byte[TOKEN_SIZE];
    var i := 0;
    while i < TOKEN_SIZE
      invariant 0 <= i <= TOKEN_SIZE
      invariant secret[..i] == random.value[..i]
    {
      secret[i] := random.value[i];
      i := i + 1;
    }
    assert secret[..] == random.value;
    return Ok((Token(sessionId, secret[..]), hash(secret[..])));
  }

  lemma {:induction false} SplitNoDot(s: string)
    requires '.' !in s
    ensures Split(s) == [s]
  {
    if s != "" {
      assert s == [s[0]] + s[1..];
      SplitNoDot(s[1..]);
    }
  }

  lemma {:induction false} SplitAtDot(a: string, rest: string)
    requires '.' !in a
    ensures Split(a + "." + rest) == [a] + Split(rest)
  {
    var s := a + "." + rest;
    if a == "" {
      assert s[1..] == rest;
    } else {
      assert a == [a[0]] + a[1..];
      SplitAtDot(a[1..], rest);
      assert s[1..] == a[1..] + "." + rest;
    }
  }

  function Join(parts: seq<string>): string
    requires parts != []
  {
    if |parts| == 1 then parts[0] else parts[0] + "." + Join(parts[1..])
  }

  lemma {:induction false} JoinSplit(s: string)
    ensures Join(Split(s)) == s
  {
    if s != "" {
      var rest, parts := Split(s[1..]), Split(s);
      JoinSplit(s[1..]);
      assert s == [s[0]] + s[1..];
      if s[0] == '.' {
        assert parts[1..] == rest;
      } else {
        assert parts[1..] == rest[1..];
      }
    }
  }

  lemma CanonicalIdHasNoDot(id: string)
    requires IsCanonicalId(id)
    ensures '.' !in id
  {
    assert forall i :: 0 <= i < |id| ==> IsIdChar(i, id[i]) && id[i] != '.';
  }

  lemma TokenParts(id: string, secret: seq<Byte>)
    requires IsCanonicalId(id) && |secret| == TOKEN_SIZE
    ensures Split(Token(id, secret)) == [VERSION, id, Encode(secret)] && |Token(id, secret)| == TOKEN_LENGTH
  {
    EncodeShape(secret);
    SextetCount(secret);
    CanonicalIdHasNoDot(id);
    SplitNoDot(Encode(secret));
    SplitAtDot(id, Encode(secret));
    SplitAtDot(VERSION, id + "." + Encode(secret));
    assert Token(id, secret) == VERSION + "." + (id + "." + Encode(secret));
  }

  /** A token is 83 characters: the version, the id, and 43 characters of the alphabet. */
  lemma TokenText(id: string, secret: seq<Byte>) returns (text: string)
    requires IsCanonicalId(id) && |secret| == TOKEN_SIZE
    ensures Token(id, secret) == "v1." + id + "." + text && |text| == 43 && |Token(id, secret)| == 83
    ensures forall i :: 0 <= i < 43 ==> text[i] in ALPHABET
  {
    text := Encode(secret);
    TokenParts(id, secret);
    forall i | 0 <= i < |text| ensures text[i] in ALPHABET {
      AlphabetExactly(Sextets(secret)[i]);
    }
    assert "v1." + id == "v1" + "." + id;
  }

  /** Every issued token parses back to its session id and the hash of its secret. */
  lemma IssuedTokensParse(id: string, secret: seq<Byte>, hash: Hash)
    requires IsCanonicalId(id) && |secret| == TOKEN_SIZE
    ensures Parse(Token(id, secret), hash) == Ok(Parsed(id, hash(secret)))
  {
    TokenParts(id, secret);
    DecodeEncode(secret);
  }

  lemma DecodedSecretIsExact(s: string)
    requires |s| == ENCODED_LENGTH && DecodeString(s).Some? && |DecodeString(s).value| == TOKEN_SIZE
    ensures Encode(DecodeString(s).value) == s
  {
    EncodeDecode(s);
    assert |WithoutNewlines(s)| == ENCODED_LENGTH;
  }

  /** Every accepted string is the print of its session id and one 32-byte secret. */
  lemma AcceptedTokensAreIssued(token: string, hash: Hash) returns (secret: seq<Byte>)
    requires Parse(token, hash).Ok?
    ensures IsCanonicalId(Parse(token, hash).value.sessionId) && |secret| == TOKEN_SIZE
    ensures token == Token(Parse(token, hash).value.sessionId, secret)
    ensures Parse(token, hash).value.tokenHash == hash(secret)
  {
    var parts := Split(token);
    secret := DecodeString(parts[2]).value;
    JoinSplit(token);
    assert parts == [parts[0], parts[1], parts[2]];
    assert Join(parts[1..]) == parts[1] + "." + parts[2] by {
      assert parts[1..][1..] == [parts[2]];
    }
    assert token == parts[0] + "." + (parts[1] + "." + parts[2]);
    assert |parts[2]| == ENCODED_LENGTH;
    DecodedSecretIsExact(parts[2]);
  }

  /** And that pair is unique: no two pairs print alike. */
  lemma TokensAreUnique(id: string, secret: seq<Byte>, id2: string, secret2: seq<Byte>)
    requires IsCanonicalId(id) && |secret| == TOKEN_SIZE && IsCanonicalId(id2) && |secret2| == TOKEN_SIZE
    requires Token(id, secret) == Token(id2, secret2)
    ensures id == id2 && secret == secret2
  {
    TokenParts(id, secret);
    TokenParts(id2, secret2);
    DecodeEncode(secret);
    DecodeEncode(secret2);
  }
}
