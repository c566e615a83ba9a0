/** Percent-decoding as Go's url.PathUnescape does it (section 2.1 of
    RFC 3986): "%XY" with two hexadecimal digits stands for the octet XY;
    a '%' not followed by two hexadecimal digits makes the whole string
    invalid; '+' and every other character stand for themselves. A Go string
    is a sequence of bytes: here each char stands for one byte. */
module PercentEncoding {
  import opened Common

  predicate IsHex(c: char) {
    '0' <= c <= '9' || 'a' <= c <= 'f' || 'A' <= c <= 'F'
  }

  function Unhex(c: char): (v: nat)
    requires IsHex(c)
    ensures v < 16
  {
    if c <= '9' then c as int - '0' as int
    else if c <= 'F' then c as int - 'A' as int + 10
    else c as int - 'a' as int + 10
  }

  /** The '%' at index i does not begin a well-formed escape. */
  predicate BadEscapeAt(s: string, i: nat) {
    i < |s| && s[i] == '%' && (|s| < i + 3 || !IsHex(s[i + 1]) || !IsHex(s[i + 2]))
  }

  /** url.PathUnescape; the error is the offending fragment, at most three
      characters from the first bad '%', as in Go's EscapeError. */
  function PathUnescape(s: string): (r: Result<string, string>)
    ensures r.Ok? ==> |r.value| <= |s|
    ensures r.Err? ==> 1 <= |r.error| <= 3 && r.error[0] == '%'
    decreases |s|
  {
    if s == [] then Ok("")
    else if s[0] == '%' then
      if |s| < 3 || !IsHex(s[1]) || !IsHex(s[2]) then Err(if |s| < 3 then s else s[..3])
      else
        match PathUnescape(s[3..])
        case Ok(t) => Ok([(Unhex(s[1]) * 16 + Unhex(s[2])) as char] + t)
        case Err(e) => Err(e)
    else
      match PathUnescape(s[1..])
      case Ok(t) => Ok([s[0]] + t)
      case Err(e) => Err(e)
  }

  /** Decoding fails exactly when some '%' is not followed by two
      hexadecimal digits. */
  lemma {:induction false} PathUnescapeFailsIff(s: string)
    ensures PathUnescape(s).Err? <==> exists i: nat :: BadEscapeAt(s, i)
    decreases |s|
  {
    if s == [] {
    } else if s[0] == '%' && (|s| < 3 || !IsHex(s[1]) || !IsHex(s[2])) {
      assert BadEscapeAt(s, 0);
    } else {
      var n := if s[0] == '%' then 3 else 1;
      var rest := s[n..];
      PathUnescapeFailsIff(rest);
      if exists i: nat :: BadEscapeAt(rest, i) {
        var i: nat :| BadEscapeAt(rest, i);
        assert BadEscapeAt(s, i + n);
      }
      if exists i: nat :: BadEscapeAt(s, i) {
        var i: nat :| BadEscapeAt(s, i);
        assert i != 0;
        assert n == 3 ==> IsHex(s[1]) && IsHex(s[2]);
        assert i >= n;
        assert BadEscapeAt(rest, i - n);
      }
    }
  }

  /** The fragment Go's EscapeError holds for a bad '%' at index i: at most
      three characters from it. */
  function Fragment(s: string, i: nat): (f: string)
    requires i < |s|
    ensures 1 <= |f| <= 3 && f[0] == s[i]
  {
    s[i..if i + 3 <= |s| then i + 3 else |s|]
  }

  /** Index i holds the first bad escape of s. */
  predicate FirstBadEscapeAt(s: string, i: nat) {
    BadEscapeAt(s, i) && forall j: nat :: j < i ==> !BadEscapeAt(s, j)
  }

  /** Dropping the first n characters shifts escapes and fragments by n. */
  lemma Shift(s: string, n: nat, i: nat)
    requires n <= |s|
    ensures BadEscapeAt(s, i + n) == BadEscapeAt(s[n..], i)
    ensures i + n < |s| ==> Fragment(s, i + n) == Fragment(s[n..], i)
  {
  }

  /** The error is the input's first bad escape, cut to three characters,
      as Go's EscapeError holds it. */
  lemma {:induction false} PathUnescapeFirstBadEscape(s: string)
    ensures PathUnescape(s).Err? ==>
      exists i: nat :: i < |s| && FirstBadEscapeAt(s, i) && PathUnescape(s).error == Fragment(s, i)
    decreases |s|
  {
    if s != [] && s[0] == '%' && (|s| < 3 || !IsHex(s[1]) || !IsHex(s[2])) {
      assert FirstBadEscapeAt(s, 0);
    } else if s != [] && PathUnescape(s).Err? {
      var n := if s[0] == '%' then 3 else 1;
      var rest := s[n..];
      PathUnescapeFirstBadEscape(rest);
      var i: nat :| i < |rest| && FirstBadEscapeAt(rest, i) && PathUnescape(rest).error == Fragment(rest, i);
      Shift(s, n, i);
      forall j: nat | j < i + n
        ensures !BadEscapeAt(s, j)
      {
        if j >= n {
          Shift(s, n, j - n);
        }
      }
    }
  }

  /** A string without '%' decodes to itself. */
  lemma {:induction false} PathUnescapeNoPercent(s: string)
    requires forall k :: 0 <= k < |s| ==> s[k] != '%'
    ensures PathUnescape(s) == Ok(s)
    decreases |s|
  {
    if s != [] {
      PathUnescapeNoPercent(s[1..]);
      assert [s[0]] + s[1..] == s;
    }
  }

  /** RFC 3986 unreserved characters, the ones an encoder leaves alone. */
  predicate IsUnreserved(c: char) {
    'a' <= c <= 'z' || 'A' <= c <= 'Z' || '0' <= c <= '9' || c == '-' || c == '.' || c == '_' || c == '~'
  }

  function UpperHex(d: nat): (c: char)
    requires d < 16
    ensures IsHex(c) && Unhex(c) == d
  {
    if d < 10 then ('0' as int + d) as char else ('A' as int + d - 10) as char
  }

  /** A reference percent-encoder: every octet outside the unreserved set
      becomes "%XY". */
  function Escape(s: string): string
    requires forall k :: 0 <= k < |s| ==> s[k] as int < 256
  {
    if s == [] then ""
    else
      var c := s[0];
      (if IsUnreserved(c) then [c] else ['%', UpperHex(c as int / 16), UpperHex(c as int % 16)]) + Escape(s[1..])
  }

  /** Decoding undoes encoding. */
  lemma {:induction false} PathUnescapeEscape(s: string)
    requires forall k :: 0 <= k < |s| ==> s[k] as int < 256
    ensures PathUnescape(Escape(s)) == Ok(s)
    decreases |s|
  {
    if s != [] {
      var c := s[0];
      var e := Escape(s);
      PathUnescapeEscape(s[1..]);
      if IsUnreserved(c) {
        assert e[1..] == Escape(s[1..]);
      } else {
        assert e[3..] == Escape(s[1..]);
        assert (Unhex(e[1]) * 16 + Unhex(e[2])) as char == c;
      }
      assert [c] + s[1..] == s;
    }
  }
}
