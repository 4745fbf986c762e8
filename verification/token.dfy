/** The login token: `btoa` applied to a fixed textual payload. `btoa` reads
    each character of its argument as one octet and throws when a character
    lies above U+00FF. `StrictDecode` is the strict inverse of `btoa`
    (canonical base64 only, unlike the forgiving `atob`). The payload is
    `name:timestamp` for a user and `admin:name:timestamp` for an admin. */
module Token {
  import opened Wrappers
  import Base64
  import Decimal

  /** Every character fits in one octet, as `btoa` demands. */
  predicate IsLatin1(s: string)
  {
    forall i :: 0 <= i < |s| ==> s[i] as int < 256
  }

  function Latin1Bytes(s: string): (bs: seq<Base64.Byte>)
    requires IsLatin1(s)
    ensures |bs| == |s|
    ensures forall i :: 0 <= i < |s| ==> bs[i] == s[i] as int
  {
    if |s| == 0 then [] else [s[0] as int] + Latin1Bytes(s[1..])
  }

  function Latin1Chars(bs: seq<Base64.Byte>): (s: string)
    ensures |s| == |bs|
    ensures forall i :: 0 <= i < |bs| ==> s[i] as int == bs[i]
  {
    if |bs| == 0 then [] else [bs[0] as char] + Latin1Chars(bs[1..])
  }

  /** `btoa(s)`; `None` where `btoa` throws. */
  function Btoa(s: string): (r: Option<string>)
    ensures r.Some? <==> IsLatin1(s)
  {
    if IsLatin1(s) then Some(Base64.Encode(Latin1Bytes(s))) else None
  }

  /** The text whose `btoa` is `t`, for canonical base64 text; `None`
      otherwise. Missing padding, non-zero pad bits and white space, which
      the forgiving `atob` tolerates, are rejected here. */
  function StrictDecode(t: string): Option<string>
  {
    match Base64.Decode(t)
    case None => None
    case Some(bs) => Some(Latin1Chars(bs))
  }

  /** The token hands back exactly the payload it was made from. */
  lemma StrictDecodeOfBtoa(s: string)
    requires IsLatin1(s)
    ensures StrictDecode(Btoa(s).value) == Some(s)
  {
    var bs := Latin1Bytes(s);
    Base64.DecodeEncode(bs);
    assert Latin1Chars(bs) == s;
  }

  /** Every text the strict decoder accepts is the `btoa` of what it decodes to. */
  lemma BtoaOfStrictDecode(t: string)
    requires StrictDecode(t).Some?
    ensures Btoa(StrictDecode(t).value) == Some(t)
  {
    var bs := Base64.Decode(t).value;
    var s := Latin1Chars(bs);
    assert IsLatin1(s);
    assert Latin1Bytes(s) == bs;
    Base64.EncodeDecode(t);
  }

  /** Base64 text is never shorter than its payload, so a non-empty payload
      gives a non-empty token. */
  lemma BtoaNonEmpty(s: string)
    requires IsLatin1(s) && |s| > 0
    ensures |Btoa(s).value| >= |s|
  {
  }

  const Separator: char := ':'
  const AdminMarker: string := "admin:"

  /** `${name}:${now}`, the payload of a user token. */
  function UserPayload(name: string, now: nat): string
  {
    name + [Separator] + Decimal.Show(now)
  }

  /** `admin:${name}:${now}`, the payload of an admin token. */
  function AdminPayload(name: string, now: nat): string
  {
    AdminMarker + name + [Separator] + Decimal.Show(now)
  }

  /** The position of the last occurrence of `c` in `s`. */
  function LastIndexOf(s: string, c: char): (r: Option<nat>)
    ensures r.Some? ==> r.value < |s| && s[r.value] == c
    ensures r.Some? ==> forall j :: r.value < j < |s| ==> s[j] != c
    ensures r.None? ==> forall j :: 0 <= j < |s| ==> s[j] != c
    decreases |s|
  {
    if |s| == 0 then None
    else if s[|s| - 1] == c then Some(|s| - 1)
    else LastIndexOf(s[..|s| - 1], c)
  }

  /** Splits a user payload at its last separator into the name and the
      timestamp. The name may itself contain separators; the timestamp,
      being digits, never does. */
  function ParseUserPayload(p: string): Option<(string, nat)>
  {
    match LastIndexOf(p, Separator)
    case None => None
    case Some(k) =>
      match Decimal.Parse(p[k + 1..])
      case None => None
      case Some(now) => Some((p[..k], now))
  }

  /** Strips the admin marker, then reads the rest as a user payload. */
  function ParseAdminPayload(p: string): Option<(string, nat)>
  {
    if |p| >= |AdminMarker| && p[..|AdminMarker|] == AdminMarker
    then ParseUserPayload(p[|AdminMarker|..])
    else None
  }

  /** A user payload reads back as the name and timestamp it was made from. */
  lemma ParseUserPayloadOfUserPayload(name: string, now: nat)
    ensures ParseUserPayload(UserPayload(name, now)) == Some((name, now))
  {
    var p := UserPayload(name, now);
    var digits := Decimal.Show(now);
    assert p[|name|] == Separator;
    assert forall j :: |name| < j < |p| ==> p[j] == digits[j - |name| - 1];
    var k := LastIndexOf(p, Separator).value;
    assert k == |name|;
    assert p[k + 1..] == digits;
    assert p[..k] == name;
    Decimal.ParseShow(now);
  }

  /** Every text that reads as a user payload is the payload of what it reads as. */
  lemma UserPayloadOfParse(p: string)
    requires ParseUserPayload(p).Some?
    ensures UserPayload(ParseUserPayload(p).value.0, ParseUserPayload(p).value.1) == p
  {
    var k := LastIndexOf(p, Separator).value;
    Decimal.ShowParse(p[k + 1..]);
    assert p == p[..k] + [Separator] + p[k + 1..];
  }

  /** An admin payload reads back as the name and timestamp it was made from. */
  lemma ParseAdminPayloadOfAdminPayload(name: string, now: nat)
    ensures ParseAdminPayload(AdminPayload(name, now)) == Some((name, now))
  {
    var p := AdminPayload(name, now);
    assert p[..|AdminMarker|] == AdminMarker;
    assert p[|AdminMarker|..] == UserPayload(name, now);
    ParseUserPayloadOfUserPayload(name, now);
  }

  /** The two payload shapes are not told apart by their text: the admin
      payload for `name` is the user payload for `admin:name`. */
  lemma AdminPayloadIsUserPayload(name: string, now: nat)
    ensures AdminPayload(name, now) == UserPayload(AdminMarker + name, now)
    ensures ParseUserPayload(AdminPayload(name, now)) == Some((AdminMarker + name, now))
  {
    ParseUserPayloadOfUserPayload(AdminMarker + name, now);
  }
}
