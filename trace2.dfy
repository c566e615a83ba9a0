/** Naming the negotiated TLS version, and completing a command-line
    address. The version is the two-byte ProtocolVersion of section 6.2.1 of
    RFC 5246 (0x0304 for TLS 1.3, section 4.2.1 of RFC 8446). */
module Trace2 {
  import Text

  newtype uint16 = x: int | 0 <= x < 0x1_0000

  const VersionSSL30: uint16 := 0x0300
  const VersionTLS10: uint16 := 0x0301
  const VersionTLS11: uint16 := 0x0302
  const VersionTLS12: uint16 := 0x0303
  const VersionTLS13: uint16 := 0x0304

  const UnknownPrefix := "UNKNOWN: "

  predicate IsKnown(version: uint16) {
    VersionSSL30 <= version <= VersionTLS13
  }

  /** tlsName */
  function TlsName(version: uint16): (name: string)
    ensures IsKnown(version) <==> !Text.HasPrefix(name, UnknownPrefix)
  {
    if version == VersionTLS10 then "1.0"
    else if version == VersionTLS11 then "1.1"
    else if version == VersionTLS12 then "1.2"
    else if version == VersionTLS13 then "1.3"
    else if version == VersionSSL30 then
      assert "SSL3.0 (broken)"[0] != UnknownPrefix[0];
      "SSL3.0 (broken)"
    else UnknownPrefix + Text.Format(version as nat, 16)
  }

  /** The five versions the switch names. */
  lemma TlsNameKnown()
    ensures TlsName(0x0301) == "1.0" && TlsName(0x0302) == "1.1"
    ensures TlsName(0x0303) == "1.2" && TlsName(0x0304) == "1.3"
    ensures TlsName(0x0300) == "SSL3.0 (broken)"
  {
  }

  /** Any other version is named "UNKNOWN: " and its lower-case hex digits,
      from which the version can be read back. */
  lemma TlsNameUnknown(version: uint16)
    ensures !IsKnown(version) <==> Text.HasPrefix(TlsName(version), UnknownPrefix)
    ensures !IsKnown(version) ==>
      var digits := TlsName(version)[|UnknownPrefix|..];
      && digits == Text.Format(version as nat, 16)
      && Text.Parse(digits, 16) == version as nat
  {
    if !IsKnown(version) {
      Text.ParseFormat(version as nat, 16);
      assert TlsName(version)[|UnknownPrefix|..] == Text.Format(version as nat, 16);
    } else {
      assert TlsName(version)[0] != 'U';
    }
  }

  /** Distinct versions get distinct names. */
  lemma TlsNameInjective(a: uint16, b: uint16)
    requires TlsName(a) == TlsName(b)
    ensures a == b
  {
    TlsNameUnknown(a);
    TlsNameUnknown(b);
    if !IsKnown(a) && !IsKnown(b) {
      Text.FormatInjective(a as nat, b as nat, 16);
    } else if IsKnown(a) && IsKnown(b) {
      assert TlsName(a)[|TlsName(a)| - 1] == TlsName(b)[|TlsName(b)| - 1];
    }
  }

  /** prependHTTP: add "http://" unless the string starts with "http" at
      all, so a host such as "httpbin.org" is left as it is. */
  function PrependHttp(s: string): (r: string)
    ensures Text.HasPrefix(r, "http")
    ensures r == s <==> Text.HasPrefix(s, "http")
  {
    if !Text.HasPrefix(s, "http") then "http://" + s else s
  }

  /** The result starts with "http", equals s exactly when s already did,
      and is otherwise s behind "http://"; a second application changes
      nothing. */
  lemma PrependHttpSpec(s: string)
    ensures Text.HasPrefix(PrependHttp(s), "http")
    ensures PrependHttp(s) == s <==> Text.HasPrefix(s, "http")
    ensures !Text.HasPrefix(s, "http") ==> PrependHttp(s) == "http://" + s
    ensures PrependHttp(PrependHttp(s)) == PrependHttp(s)
  {
    var r := PrependHttp(s);
    if !Text.HasPrefix(s, "http") {
      assert r[..4] == "http";
      assert |r| != |s|;
    }
  }

  /** A scheme-less host that begins with "http" keeps no scheme. */
  lemma PrependHttpKeepsSchemelessHost()
    ensures PrependHttp("httpbin.org") == "httpbin.org"
    ensures !Text.HasPrefix(PrependHttp("httpbin.org"), "http://")
    ensures !Text.HasPrefix(PrependHttp("httpbin.org"), "https://")
  {
    assert "httpbin.org"[..4] == "http";
    assert "httpbin.org"[4] == 'b';
  }
}
