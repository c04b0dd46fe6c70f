/**
  The authenticatorClientPIN messages of the FIDO Client-to-Authenticator
  Protocol (CTAP2) version 2.0: the PIN validator, the command envelope,
  and the parsers for the authenticator's replies. CBOR items are values
  (module Cbor) and the cryptographic primitives are parameters.
*/
module Pin {
  import opened Wrappers
  import opened Bytes
  import opened Utf8
  import opened Cbor
  import Cbc

  /** Minimum PIN length in bytes; a code point is up to four bytes, so this is below four characters. */
  const MinBytes := 4
  /** Maximum PIN length in bytes. */
  const MaxBytes := 63
  /** The PIN protocol version this client speaks. */
  const ProtocolVersion := 1

  /** CTAP2 command bytes. */
  const AuthenticatorClientPin: byte := 0x06
  const AuthenticatorReset: byte := 0x07

  /** Keys of the top-level map of a PIN command. */
  const ProtocolKey := 1
  const SubcommandKey := 2

  /** Keys of the authenticator's replies. */
  const KeyAgreementReplyKey := 1
  const PinTokenReplyKey := 2
  const RetriesReplyKey := 3

  /** Length of each P-256 coordinate, and of an HMAC-SHA-256 output. */
  const CoordinateLength := 32
  const Sha256DigestLength := 32
  /** A pinAuth is the HMAC truncated to its first 16 bytes. */
  const PinAuthLength := 16

  type Digest = d: seq<byte> | |d| == Sha256DigestLength witness seq(Sha256DigestLength, _ => 0)

  /** HMAC-SHA-256 under a key, over a message. */
  type Hmac = (seq<byte>, seq<byte>) -> Digest

  // ---------------------------------------------------------------------
  // PIN validation

  /**
    A PIN acceptable to CTAP2: 4 to 63 bytes, not ending in a zero byte,
    valid UTF-8, and at least four code points long.
  */
  predicate IsValid(pin: seq<byte>)
  {
    && MinBytes <= |pin| <= MaxBytes
    && pin[|pin| - 1] != 0
    && IsStringUtf8(pin)
    && HasAtLeastFourCodepoints(pin)
  }

  /**
    The text view of a valid PIN: a PIN is valid exactly when it decodes
    to four or more valid characters, the last of which is not U+0000,
    within the byte bounds.
  */
  lemma IsValidIffText(pin: seq<byte>)
    ensures IsValid(pin) <==>
      && MinBytes <= |pin| <= MaxBytes
      && Decode(pin).Some?
      && AllValidCharacters(Decode(pin).value)
      && |Decode(pin).value| >= 4
      && Decode(pin).value[|Decode(pin).value| - 1] != 0
  {
    if MinBytes <= |pin| && Decode(pin).Some? {
      FourCodepointsIffDecodedLength(pin);
      LastByteZeroIffLastCodePointZero(pin);
    }
  }

  /** A valid PIN is the UTF-8 encoding of the characters it decodes to. */
  lemma ValidPinIsEncodedText(pin: seq<byte>)
    requires IsValid(pin)
    ensures Decode(pin).Some?
    ensures AllScalarValues(Decode(pin).value)
    ensures Encode(Decode(pin).value) == pin
  {
    EncodeDecode(pin);
  }

  /**
    Encoding four or more valid characters, not ending in U+0000, gives a
    valid PIN whenever the encoding fits the byte bounds.
  */
  lemma EncodedTextIsValidPin(cps: seq<int>)
    requires AllValidCharacters(cps) && |cps| >= 4 && cps[|cps| - 1] != 0
    requires MinBytes <= |Encode(cps)| <= MaxBytes
    ensures IsValid(Encode(cps))
  {
    DecodeEncode(cps);
    ValidFromText(Encode(cps), cps);
  }

  /** The text view of validity, read from right to left for a known decoding. */
  lemma ValidFromText(pin: seq<byte>, cps: seq<int>)
    requires Decode(pin) == Some(cps) && AllValidCharacters(cps)
    requires |cps| >= 4 && cps[|cps| - 1] != 0 && MinBytes <= |pin| <= MaxBytes
    ensures IsValid(pin)
  {
    assert pin[|pin| - 1] != 0 by { LastByteZeroIffLastCodePointZero(pin); }
    assert IsStringUtf8(pin);
    assert HasAtLeastFourCodepoints(pin) by { FourCodepointsIffDecodedLength(pin); }
  }

  // ---------------------------------------------------------------------
  // The command envelope

  datatype Subcommand = GetRetries | GetKeyAgreement | SetPin | ChangePin | GetPinToken
  {
    function Code(): int
    {
      match this
      case GetRetries => 0x01
      case GetKeyAgreement => 0x02
      case SetPin => 0x03
      case ChangePin => 0x04
      case GetPinToken => 0x05
    }
  }

  /** The authenticator's reading of a subcommand code. */
  function SubcommandFromCode(code: int): (r: Option<Subcommand>)
    ensures r.Some? ==> r.value.Code() == code
    ensures r.None? ==> !(1 <= code <= 5)
  {
    if code == 0x01 then Some(GetRetries)
    else if code == 0x02 then Some(GetKeyAgreement)
    else if code == 0x03 then Some(SetPin)
    else if code == 0x04 then Some(ChangePin)
    else if code == 0x05 then Some(GetPinToken)
    else None
  }

  lemma SubcommandCodeRoundTrip(sub: Subcommand)
    ensures SubcommandFromCode(sub.Code()) == Some(sub)
  {
  }

  /** `std::map::emplace`: inserts the entry only when the key is not already present. */
  function Emplace(m: map<CborValue, CborValue>, entry: (CborValue, CborValue)): map<CborValue, CborValue>
  {
    if entry.0 in m then m else m[entry.0 := entry.1]
  }

  function KeysOf(entries: seq<(CborValue, CborValue)>): set<CborValue>
  {
    set i | 0 <= i < |entries| :: entries[i].0
  }

  /** Whether `entries[i]` is the first entry carrying its key. */
  predicate FirstWithKey(entries: seq<(CborValue, CborValue)>, i: int)
    requires 0 <= i < |entries|
  {
    forall j :: 0 <= j < i ==> entries[j].0 != entries[i].0
  }

  /**
    Emplaces every entry in order. Entries already in `m` are kept, and of
    several entries with a new key, the first one wins.
  */
  function EmplaceAll(m: map<CborValue, CborValue>, entries: seq<(CborValue, CborValue)>): (r: map<CborValue, CborValue>)
    ensures r.Keys == m.Keys + KeysOf(entries)
    ensures forall k :: k in m ==> r[k] == m[k]
    ensures forall i :: 0 <= i < |entries| && entries[i].0 !in m && FirstWithKey(entries, i) ==>
      r[entries[i].0] == entries[i].1
    decreases |entries|
  {
    if |entries| == 0 then m
    else
      KeysOfTail(entries);
      EmplaceAll(Emplace(m, entries[0]), entries[1..])
  }

  lemma KeysOfTail(entries: seq<(CborValue, CborValue)>)
    requires |entries| > 0
    ensures KeysOf(entries) == {entries[0].0} + KeysOf(entries[1..])
    ensures forall i :: 1 <= i < |entries| && FirstWithKey(entries, i) ==> FirstWithKey(entries[1..], i - 1)
  {
    forall k | k in KeysOf(entries) ensures k in {entries[0].0} + KeysOf(entries[1..]) {
      var i :| 0 <= i < |entries| && entries[i].0 == k;
      if i > 0 { assert entries[1..][i - 1].0 == k; }
    }
  }

  /**
    The top-level map of a PIN command: protocol version and subcommand,
    then whatever additional entries the particular request adds.
  */
  function CommandMap(sub: Subcommand, additional: seq<(CborValue, CborValue)>): (r: map<CborValue, CborValue>)
    ensures Integer(ProtocolKey) in r && r[Integer(ProtocolKey)] == Integer(ProtocolVersion)
    ensures Integer(SubcommandKey) in r && r[Integer(SubcommandKey)] == Integer(sub.Code())
    ensures r.Keys == {Integer(ProtocolKey), Integer(SubcommandKey)} + KeysOf(additional)
  {
    var base := map[Integer(ProtocolKey) := Integer(ProtocolVersion), Integer(SubcommandKey) := Integer(sub.Code())];
    EmplaceAll(base, additional)
  }

  /** The serialised command: the authenticatorClientPIN byte, then the CBOR map. */
  function EncodePinCommand(sub: Subcommand, additional: seq<(CborValue, CborValue)>, write: Writer): (r: seq<byte>)
    ensures |r| >= 1 && r[0] == AuthenticatorClientPin
    ensures r[1..] == write(Map(CommandMap(sub, additional)))
  {
    [AuthenticatorClientPin] + write(Map(CommandMap(sub, additional)))
  }

  /**
    The authenticator's reading of a PIN command: the command byte, a CBOR
    map, protocol version 1 and a known subcommand.
  */
  function DecodePinCommand(request: seq<byte>, read: Reader): Option<(Subcommand, map<CborValue, CborValue>)>
  {
    if |request| == 0 || request[0] != AuthenticatorClientPin then None
    else match read(request[1..])
      case Some(Map(m)) =>
        if Find(m, ProtocolKey) != Some(Integer(ProtocolVersion)) then None
        else (match Find(m, SubcommandKey)
          case Some(Integer(code)) =>
            (match SubcommandFromCode(code)
              case Some(sub) => Some((sub, m))
              case None => None)
          case _ => None)
      case _ => None
  }

  /** Every encoded PIN command reads back as the same subcommand and map. */
  lemma PinCommandRoundTrip(sub: Subcommand, additional: seq<(CborValue, CborValue)>, read: Reader, write: Writer)
    requires ReadsBack(read, write, Map(CommandMap(sub, additional)))
    ensures DecodePinCommand(EncodePinCommand(sub, additional, write), read) == Some((sub, CommandMap(sub, additional)))
  {
    var r := EncodePinCommand(sub, additional, write);
    SubcommandCodeRoundTrip(sub);
  }

  /** getRetries: a command with nothing beyond protocol and subcommand. */
  function RetriesRequest(write: Writer): (r: seq<byte>)
    ensures r == [AuthenticatorClientPin] + write(Map(map[Integer(1) := Integer(1), Integer(2) := Integer(1)]))
  {
    EncodePinCommand(GetRetries, [], write)
  }

  /** getKeyAgreement: a command with nothing beyond protocol and subcommand. */
  function KeyAgreementRequest(write: Writer): (r: seq<byte>)
    ensures r == [AuthenticatorClientPin] + write(Map(map[Integer(1) := Integer(1), Integer(2) := Integer(2)]))
  {
    EncodePinCommand(GetKeyAgreement, [], write)
  }

  /** authenticatorReset: the command byte alone, no CBOR payload. */
  function ResetRequest(): (r: seq<byte>)
    ensures |r| == 1 && r[0] == AuthenticatorReset
  {
    [AuthenticatorReset]
  }

  /** A reset request is never read as a PIN command, whatever the CBOR reader does. */
  lemma ResetIsNotPinCommand(read: Reader)
    ensures DecodePinCommand(ResetRequest(), read).None?
  {
  }

  // ---------------------------------------------------------------------
  // Reply parsing. The status byte has been checked by the caller; each
  // parser skips it and reads the rest as one CBOR item.

  /** The CBOR map after the status byte, when there is one. */
  function ReplyMap(buffer: seq<byte>, read: Reader): (r: Option<map<CborValue, CborValue>>)
    ensures |buffer| == 0 ==> r.None?
    ensures r.Some? <==> |buffer| >= 1 && read(buffer[1..]).Some? && read(buffer[1..]).value.Map?
    ensures r.Some? ==> r.value == read(buffer[1..]).value.entries
  {
    if |buffer| == 0 then None
    else match read(buffer[1..])
      case Some(Map(m)) => Some(m)
      case _ => None
  }

  /** The reply map depends on the body only, not on the status byte in front of it. */
  lemma ReplyMapIgnoresStatus(s1: byte, s2: byte, body: seq<byte>, read: Reader)
    ensures ReplyMap([s1] + body, read) == ReplyMap([s2] + body, read)
  {
    assert ([s1] + body)[1..] == body && ([s2] + body)[1..] == body;
  }

  datatype RetriesResponse = RetriesResponse(retries: nat)

  /** Succeeds exactly when the reply map holds an unsigned integer under key 3, the retry count. */
  function ParseRetries(buffer: seq<byte>, read: Reader): (r: Option<RetriesResponse>)
    ensures |buffer| == 0 ==> r.None?
    ensures r.Some? <==>
      ReplyMap(buffer, read).Some? && Find(ReplyMap(buffer, read).value, RetriesReplyKey).Some?
      && IsUnsigned(Find(ReplyMap(buffer, read).value, RetriesReplyKey).value)
    ensures r.Some? ==> ReplyMap(buffer, read).value[Integer(RetriesReplyKey)] == Integer(r.value.retries)
  {
    match ReplyMap(buffer, read)
    case None => None
    case Some(m) =>
      match Find(m, RetriesReplyKey)
      case Some(Integer(n)) => if n >= 0 then Some(RetriesResponse(n)) else None
      case _ => None
  }

  /** The authenticator's getRetries reply: status byte, then {3: retries}. */
  function RetriesReply(status: byte, retries: nat, write: Writer): seq<byte>
  {
    [status] + write(Map(map[Integer(RetriesReplyKey) := Integer(retries)]))
  }

  lemma RetriesRoundTrip(status: byte, retries: nat, read: Reader, write: Writer)
    requires ReadsBack(read, write, Map(map[Integer(RetriesReplyKey) := Integer(retries)]))
    ensures ParseRetries(RetriesReply(status, retries, write), read) == Some(RetriesResponse(retries))
  {
    assert RetriesReply(status, retries, write)[1..] == write(Map(map[Integer(RetriesReplyKey) := Integer(retries)]));
  }

  // ---------------------------------------------------------------------
  // Key agreement

  /** The authenticator's ephemeral P-256 public key, as two 32-byte big-endian coordinates. */
  datatype KeyAgreementResponse = KeyAgreementResponse(x: seq<byte>, y: seq<byte>)

  /**
    COSE key parameters a P-256 ECDH key must carry (sections 7.1 and
    13.1.1 of RFC 8152): key type 2 (EC2), algorithm -25 (ECDH-ES with
    HKDF-SHA-256), curve 1 (P-256).
  */
  const RequiredCoseParameters: seq<(int, int)> := [(1, 2), (3, -25), (-1, 1)]

  const CoseXKey := -2
  const CoseYKey := -3

  /** Every listed (label, value) pair is present in the COSE key as an integer. */
  predicate HasCoseParameters(coseKey: map<CborValue, CborValue>, params: seq<(int, int)>)
    decreases |params|
  {
    |params| == 0 ||
      (Find(coseKey, params[0].0) == Some(Integer(params[0].1)) && HasCoseParameters(coseKey, params[1..]))
  }

  lemma {:induction false} HasCoseParametersAll(coseKey: map<CborValue, CborValue>, params: seq<(int, int)>)
    ensures HasCoseParameters(coseKey, params) <==>
      forall i :: 0 <= i < |params| ==> Find(coseKey, params[i].0) == Some(Integer(params[i].1))
    decreases |params|
  {
    if |params| > 0 {
      HasCoseParametersAll(coseKey, params[1..]);
      assert forall i :: 1 <= i < |params| ==> params[1..][i - 1] == params[i];
    }
  }

  /** The three fixed parameters, spelled out. */
  lemma RequiredCoseParametersMeaning(coseKey: map<CborValue, CborValue>)
    ensures HasCoseParameters(coseKey, RequiredCoseParameters) <==>
      && Find(coseKey, 1) == Some(Integer(2))
      && Find(coseKey, 3) == Some(Integer(-25))
      && Find(coseKey, -1) == Some(Integer(1))
  {
    HasCoseParametersAll(coseKey, RequiredCoseParameters);
    assert RequiredCoseParameters[0] == (1, 2);
    assert RequiredCoseParameters[1] == (3, -25);
    assert RequiredCoseParameters[2] == (-1, 1);
  }

  /**
    Reads a COSE key: the fixed parameters, then x and y as byte strings of
    exactly 32 bytes each, then the on-curve test.
  */
  function ParseCoseKey(coseKey: map<CborValue, CborValue>, onCurve: (seq<byte>, seq<byte>) -> bool): (r: Option<KeyAgreementResponse>)
    ensures r.Some? ==>
      && HasCoseParameters(coseKey, RequiredCoseParameters)
      && |r.value.x| == CoordinateLength && |r.value.y| == CoordinateLength
      && Find(coseKey, CoseXKey) == Some(Bytestring(r.value.x))
      && Find(coseKey, CoseYKey) == Some(Bytestring(r.value.y))
      && onCurve(r.value.x, r.value.y)
    ensures r.None? ==>
      || !HasCoseParameters(coseKey, RequiredCoseParameters)
      || !Find(coseKey, CoseXKey).Some? || !Find(coseKey, CoseXKey).value.Bytestring?
      || !Find(coseKey, CoseYKey).Some? || !Find(coseKey, CoseYKey).value.Bytestring?
      || |Find(coseKey, CoseXKey).value.bytes| != CoordinateLength
      || |Find(coseKey, CoseYKey).value.bytes| != CoordinateLength
      || !onCurve(Find(coseKey, CoseXKey).value.bytes, Find(coseKey, CoseYKey).value.bytes)
  {
    if !HasCoseParameters(coseKey, RequiredCoseParameters) then None
    else match (Find(coseKey, CoseXKey), Find(coseKey, CoseYKey))
      case (Some(Bytestring(x)), Some(Bytestring(y))) =>
        if |x| != CoordinateLength || |y| != CoordinateLength then None
        else if !onCurve(x, y) then None
        else Some(KeyAgreementResponse(x, y))
      case _ => None
  }

  /** The map under key 1 of the reply map, where the authenticator puts its COSE key. */
  function ReplyCoseKey(buffer: seq<byte>, read: Reader): (r: Option<map<CborValue, CborValue>>)
    ensures r.Some? <==>
      ReplyMap(buffer, read).Some? && Find(ReplyMap(buffer, read).value, KeyAgreementReplyKey).Some?
      && Find(ReplyMap(buffer, read).value, KeyAgreementReplyKey).value.Map?
    ensures r.Some? ==> r.value == Find(ReplyMap(buffer, read).value, KeyAgreementReplyKey).value.entries
  {
    match ReplyMap(buffer, read)
    case None => None
    case Some(m) =>
      match Find(m, KeyAgreementReplyKey)
      case Some(Map(coseKey)) => Some(coseKey)
      case _ => None
  }

  /** The getKeyAgreement reply: a COSE key under key 1 of the reply map. */
  function ParseKeyAgreement(buffer: seq<byte>, read: Reader, onCurve: (seq<byte>, seq<byte>) -> bool): (r: Option<KeyAgreementResponse>)
    ensures |buffer| == 0 ==> r.None?
    ensures r.Some? <==>
      ReplyCoseKey(buffer, read).Some? && ParseCoseKey(ReplyCoseKey(buffer, read).value, onCurve).Some?
    ensures r.Some? ==> ParseCoseKey(ReplyCoseKey(buffer, read).value, onCurve) == r
  {
    match ReplyCoseKey(buffer, read)
    case None => None
    case Some(coseKey) => ParseCoseKey(coseKey, onCurve)
  }

  /**
    An accepted key-agreement reply carries a COSE key with key type 2,
    algorithm -25 and curve 1, and x and y byte strings of 32 bytes each
    that lie on the curve.
  */
  lemma KeyAgreementAccepted(buffer: seq<byte>, read: Reader, onCurve: (seq<byte>, seq<byte>) -> bool)
    requires ParseKeyAgreement(buffer, read, onCurve).Some?
    ensures ReplyCoseKey(buffer, read).Some?
    ensures var coseKey := ReplyCoseKey(buffer, read).value;
      var k := ParseKeyAgreement(buffer, read, onCurve).value;
      && Find(coseKey, 1) == Some(Integer(2))
      && Find(coseKey, 3) == Some(Integer(-25))
      && Find(coseKey, -1) == Some(Integer(1))
      && Find(coseKey, CoseXKey) == Some(Bytestring(k.x)) && |k.x| == CoordinateLength
      && Find(coseKey, CoseYKey) == Some(Bytestring(k.y)) && |k.y| == CoordinateLength
      && onCurve(k.x, k.y)
  {
    RequiredCoseParametersMeaning(ReplyCoseKey(buffer, read).value);
  }

  /**
    The COSE key a correct P-256 ECDH key is sent as. The client's own
    key (CalculateSharedKey) follows this layout but writes algorithm 2;
    see PlatformCoseKeyAsWritten.
  */
  function PlatformCoseKey(x: seq<byte>, y: seq<byte>): map<CborValue, CborValue>
  {
    map[Integer(1) := Integer(2), Integer(3) := Integer(-25), Integer(-1) := Integer(1),
        Integer(CoseXKey) := Bytestring(x), Integer(CoseYKey) := Bytestring(y)]
  }

  /** The client's ephemeral COSE key as the source builds it, with algorithm 2. */
  function PlatformCoseKeyAsWritten(x: seq<byte>, y: seq<byte>): map<CborValue, CborValue>
  {
    map[Integer(1) := Integer(2), Integer(3) := Integer(2), Integer(-1) := Integer(1),
        Integer(CoseXKey) := Bytestring(x), Integer(CoseYKey) := Bytestring(y)]
  }

  /** The key the client sends would be refused by the client's own key check. */
  lemma PlatformCoseKeyAsWrittenRejected(x: seq<byte>, y: seq<byte>, onCurve: (seq<byte>, seq<byte>) -> bool)
    ensures ParseCoseKey(PlatformCoseKeyAsWritten(x, y), onCurve).None?
  {
    RequiredCoseParametersMeaning(PlatformCoseKeyAsWritten(x, y));
  }

  /** With algorithm -25 a P-256 point survives a write-then-check round trip. */
  lemma PlatformCoseKeyRoundTrip(x: seq<byte>, y: seq<byte>, onCurve: (seq<byte>, seq<byte>) -> bool)
    requires |x| == CoordinateLength && |y| == CoordinateLength && onCurve(x, y)
    ensures ParseCoseKey(PlatformCoseKey(x, y), onCurve) == Some(KeyAgreementResponse(x, y))
  {
    RequiredCoseParametersMeaning(PlatformCoseKey(x, y));
  }

  /** The authenticator's getKeyAgreement reply: status byte, then {1: COSE key}. */
  function KeyAgreementReply(status: byte, x: seq<byte>, y: seq<byte>, write: Writer): seq<byte>
  {
    [status] + write(Map(map[Integer(KeyAgreementReplyKey) := Map(PlatformCoseKey(x, y))]))
  }

  lemma KeyAgreementRoundTrip(status: byte, x: seq<byte>, y: seq<byte>, read: Reader, write: Writer,
                              onCurve: (seq<byte>, seq<byte>) -> bool)
    requires |x| == CoordinateLength && |y| == CoordinateLength && onCurve(x, y)
    requires ReadsBack(read, write, Map(map[Integer(KeyAgreementReplyKey) := Map(PlatformCoseKey(x, y))]))
    ensures ParseKeyAgreement(KeyAgreementReply(status, x, y, write), read, onCurve) == Some(KeyAgreementResponse(x, y))
  {
    var v := Map(map[Integer(KeyAgreementReplyKey) := Map(PlatformCoseKey(x, y))]);
    assert KeyAgreementReply(status, x, y, write)[1..] == write(v);
    PlatformCoseKeyRoundTrip(x, y, onCurve);
  }

  // ---------------------------------------------------------------------
  // Status-only replies

  datatype EmptyResponse = EmptyResponse

  /** A reply to setPIN or changePIN carries the status byte and nothing else. */
  function ParseEmpty(buffer: seq<byte>): (r: Option<EmptyResponse>)
    ensures r.Some? <==> |buffer| == 1
  {
    if |buffer| != 1 then None else Some(EmptyResponse)
  }

  // ---------------------------------------------------------------------
  // PIN token

  datatype TokenResponse = TokenResponse(token: seq<byte>)

  /**
    Reads the encrypted PIN token under key 2 and decrypts it with
    AES-256-CBC, zero IV and no padding; a token whose length is not a
    whole number of AES blocks is refused.
  */
  function ParseToken(sharedKey: seq<byte>, buffer: seq<byte>, read: Reader, decrypt: Cbc.BlockCipher): (r: Option<TokenResponse>)
    requires |sharedKey| == 32
    ensures |buffer| == 0 ==> r.None?
    ensures r.Some? <==>
      && ReplyMap(buffer, read).Some?
      && Find(ReplyMap(buffer, read).value, PinTokenReplyKey).Some?
      && Find(ReplyMap(buffer, read).value, PinTokenReplyKey).value.Bytestring?
      && |Find(ReplyMap(buffer, read).value, PinTokenReplyKey).value.bytes| % Cbc.BlockSize == 0
    ensures r.Some? ==> |r.value.token| == |Find(ReplyMap(buffer, read).value, PinTokenReplyKey).value.bytes|
  {
    match ReplyMap(buffer, read)
    case None => None
    case Some(m) =>
      match Find(m, PinTokenReplyKey)
      case Some(Bytestring(encrypted)) =>
        if |encrypted| % Cbc.BlockSize != 0 then None
        else Some(TokenResponse(Cbc.Decrypt(sharedKey, Cbc.ZeroIv, encrypted, decrypt)))
      case _ => None
  }

  /** The authenticator's getPINToken reply: status, then {2: token encrypted under the shared key}. */
  function TokenReply(status: byte, sharedKey: seq<byte>, token: seq<byte>, write: Writer, encrypt: Cbc.BlockCipher): seq<byte>
    requires |token| % Cbc.BlockSize == 0
  {
    [status] + write(Map(map[Integer(PinTokenReplyKey) := Bytestring(Cbc.Encrypt(sharedKey, Cbc.ZeroIv, token, encrypt))]))
  }

  /** A token encrypted by the authenticator under the shared key is recovered exactly. */
  lemma TokenRoundTrip(status: byte, sharedKey: seq<byte>, token: seq<byte>, read: Reader, write: Writer,
                       encrypt: Cbc.BlockCipher, decrypt: Cbc.BlockCipher)
    requires |sharedKey| == 32 && |token| % Cbc.BlockSize == 0
    requires Cbc.Inverts(sharedKey, encrypt, decrypt)
    requires ReadsBack(read, write, Map(map[Integer(PinTokenReplyKey) := Bytestring(Cbc.Encrypt(sharedKey, Cbc.ZeroIv, token, encrypt))]))
    ensures ParseToken(sharedKey, TokenReply(status, sharedKey, token, write, encrypt), read, decrypt) == Some(TokenResponse(token))
  {
    var v := Map(map[Integer(PinTokenReplyKey) := Bytestring(Cbc.Encrypt(sharedKey, Cbc.ZeroIv, token, encrypt))]);
    assert TokenReply(status, sharedKey, token, write, encrypt)[1..] == write(v);
    Cbc.DecryptEncrypt(sharedKey, Cbc.ZeroIv, token, encrypt, decrypt);
  }

  /** The pinAuth for a client-data hash: HMAC-SHA-256 under the token, cut to its first 16 bytes. */
  function PinAuth(token: TokenResponse, clientDataHash: seq<byte>, hmac: Hmac): (r: seq<byte>)
    requires |clientDataHash| == 32
    ensures |r| == PinAuthLength
    ensures r == hmac(token.token, clientDataHash)[..PinAuthLength]
  {
    hmac(token.token, clientDataHash)[..PinAuthLength]
  }
}
