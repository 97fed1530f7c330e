/** The browser pieces the login-to-verify hand-off goes through: reading a parameter
    of a URL's query string (`URLSearchParams.get`, form-urlencoded decoding) and
    `encodeURIComponent`. */
module Query {
  import opened Wrappers
  import Text

  predicate IsHex(c: char) {
    '0' <= c <= '9' || 'A' <= c <= 'F' || 'a' <= c <= 'f'
  }

  function HexValue(c: char): (v: nat)
    requires IsHex(c)
    ensures v < 16
  {
    if '0' <= c <= '9' then c as int - '0' as int
    else if 'A' <= c <= 'F' then c as int - 'A' as int + 10
    else c as int - 'a' as int + 10
  }

  function HexDigit(v: nat): (c: char)
    requires v < 16
    ensures IsHex(c) && HexValue(c) == v
  {
    if v < 10 then ('0' as int + v) as char else ('A' as int + v - 10) as char
  }

  /** Form-urlencoded decoding: '+' is a space and `%XX` the character with that code;
      anything else, including a '%' without two hex digits, stands for itself. */
  function Decode(s: string): string
    decreases |s|
  {
    if |s| == 0 then ""
    else if s[0] == '+' then " " + Decode(s[1..])
    else if s[0] == '%' && |s| >= 3 && IsHex(s[1]) && IsHex(s[2]) then
      [(HexValue(s[1]) * 16 + HexValue(s[2])) as char] + Decode(s[3..])
    else [s[0]] + Decode(s[1..])
  }

  /** The characters `encodeURIComponent` leaves alone. */
  predicate Unreserved(c: char) {
    || 'A' <= c <= 'Z' || 'a' <= c <= 'z' || '0' <= c <= '9'
    || c == '-' || c == '_' || c == '.' || c == '!' || c == '~' || c == '*' || c == '\'' || c == '(' || c == ')'
  }

  /** One character as `encodeURIComponent` writes it: other ASCII characters become
      `%XX`; characters beyond ASCII are kept (the browser escapes them as UTF-8 and the
      query parser reverses that). */
  function EncodeChar(c: char): string {
    if Unreserved(c) || c as int >= 128 then [c]
    else ['%', HexDigit(c as int / 16), HexDigit(c as int % 16)]
  }

  function EncodeURIComponent(s: string): (e: string)
    ensures '&' !in e && '#' !in e && '+' !in e
  {
    if |s| == 0 then "" else EncodeChar(s[0]) + EncodeURIComponent(s[1..])
  }

  lemma DecodeEncodedChar(c: char, rest: string)
    ensures Decode(EncodeChar(c) + rest) == [c] + Decode(rest)
  {
    var e := EncodeChar(c) + rest;
    if Unreserved(c) || c as int >= 128 {
      assert e[1..] == rest;
    } else {
      assert e[3..] == rest;
      assert (HexValue(e[1]) * 16 + HexValue(e[2])) == c as int;
    }
  }

  /** Decoding undoes `encodeURIComponent`. */
  lemma {:induction false} DecodeEncode(s: string)
    ensures Decode(EncodeURIComponent(s)) == s
  {
    if |s| > 0 {
      DecodeEncodedChar(s[0], EncodeURIComponent(s[1..]));
      DecodeEncode(s[1..]);
      assert s == [s[0]] + s[1..];
    }
  }

  /** Position of the first `c` in `s`, or |s|. */
  function IndexOf(s: string, c: char): (i: nat)
    ensures i <= |s|
    ensures c !in s[..i]
    ensures i < |s| ==> s[i] == c
  {
    if |s| == 0 then 0
    else if s[0] == c then 0
    else
      var i := 1 + IndexOf(s[1..], c);
      assert s[..i] == [s[0]] + s[1..][..i - 1];
      i
  }

  /** The first occurrence is the one `IndexOf` finds. */
  lemma IndexOfFirst(s: string, c: char, i: nat)
    requires i <= |s| && c !in s[..i]
    requires i < |s| ==> s[i] == c
    ensures IndexOf(s, c) == i
  {
    var j := IndexOf(s, c);
    assert forall k :: 0 <= k < i ==> s[k] == s[..i][k];
    assert forall k :: 0 <= k < j ==> s[k] == s[..j][k];
  }

  /** The query of a URL: the fragment from the first '#' on is cut off first, and the
      query is what follows the first '?' before it. */
  function QueryOf(url: string): string {
    var u := url[..IndexOf(url, '#')];
    var q := IndexOf(u, '?');
    if q < |u| then u[q + 1..] else ""
  }

  /** The first pair named `name` among `pairs`, value decoded. */
  function FindParam(pairs: seq<string>, name: string): Option<string>
    decreases |pairs|
  {
    if |pairs| == 0 then None
    else
      var p := pairs[0];
      var eq := IndexOf(p, '=');
      var value := if eq < |p| then p[eq + 1..] else "";
      if |p| > 0 && Decode(p[..eq]) == name then Some(Decode(value))
      else FindParam(pairs[1..], name)
  }

  /** `new URL(url).searchParams.get(name)`, None for `null`. */
  function SearchParam(url: string, name: string): Option<string> {
    FindParam(Text.Split(QueryOf(url), '&'), name)
  }

  /** A URL `prefix?name=value` with no '#' in it, and no '&' in the value, gives back
      the decoded value. */
  lemma {:induction false} SingleParam(prefix: string, name: string, value: string)
    requires '?' !in prefix && '#' !in prefix && '=' !in name && '&' !in name && '#' !in name
    requires '+' !in name && '%' !in name
    requires '&' !in value && '#' !in value && |name| > 0
    ensures SearchParam(prefix + "?" + name + "=" + value, name) == Some(Decode(value))
  {
    var url := prefix + "?" + name + "=" + value;
    var pair := name + "=" + value;
    assert url[..|url|] == url;
    assert '#' !in url by {
      assert forall k :: 0 <= k < |url| ==> url[k] == (if k < |prefix| then prefix[k] else if k == |prefix| then '?' else pair[k - |prefix| - 1]);
    }
    IndexOfFirst(url, '#', |url|);
    assert url[..|prefix|] == prefix;
    assert url[|prefix|] == '?';
    IndexOfFirst(url, '?', |prefix|);
    assert url[|prefix| + 1..] == pair;
    assert QueryOf(url) == pair;
    Text.SplitNoSeparator(pair, '&');
    assert pair[..|name|] == name;
    IndexOfFirst(pair, '=', |name|);
    assert pair[|name| + 1..] == value;
    DecodePlain(name);
  }

  /** A '?' that comes after the first '#' belongs to the fragment: such a URL has no
      query, so no parameter is found. */
  lemma {:induction false} FragmentHidesQuery(prefix: string, fragment: string, name: string)
    requires '?' !in prefix && '#' !in prefix && |name| > 0
    ensures QueryOf(prefix + "#" + fragment) == ""
    ensures SearchParam(prefix + "#" + fragment, name).None?
  {
    var url := prefix + "#" + fragment;
    assert url[..|prefix|] == prefix;
    assert url[|prefix|] == '#';
    IndexOfFirst(url, '#', |prefix|);
    IndexOfFirst(prefix, '?', |prefix|) by { assert prefix[..|prefix|] == prefix; }
    Text.SplitNoSeparator("", '&');
    assert QueryOf(url) == "";
    assert Text.Split(QueryOf(url), '&') == [""];
    assert FindParam([""], name) == FindParam([], name);
  }

  /** A string with no '+' or '%' decodes to itself. */
  lemma {:induction false} DecodePlain(s: string)
    requires '+' !in s && '%' !in s
    ensures Decode(s) == s
  {
    if |s| > 0 {
      assert '+' !in s[1..] && '%' !in s[1..];
      DecodePlain(s[1..]);
      assert s == [s[0]] + s[1..];
    }
  }

  /** Without '%', decoding only turns each '+' into a space. */
  lemma {:induction false} DecodeWithoutEscapes(s: string)
    requires '%' !in s
    ensures |Decode(s)| == |s|
    ensures forall i :: 0 <= i < |s| ==> Decode(s)[i] == if s[i] == '+' then ' ' else s[i]
  {
    if |s| > 0 {
      assert '%' !in s[1..];
      DecodeWithoutEscapes(s[1..]);
      var head := if s[0] == '+' then ' ' else s[0];
      assert Decode(s) == [head] + Decode(s[1..]);
      forall i | 1 <= i < |s|
        ensures Decode(s)[i] == if s[i] == '+' then ' ' else s[i]
      {
        assert s[i] == s[1..][i - 1];
      }
    }
  }
}
