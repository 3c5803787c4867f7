/**
 The database URL of a service: credentials are escaped by a chain of text replacements, the engine
 parses the URL and decodes them, and Alembic reads the same URL through configparser.
 */
module DatabaseUrl {
  import opened Common

  // ---------------------------------------------------------------- text

  /** Python's `s.replace(c, with)` for a single character. */
  function Replace(s: string, c: char, with: string): string {
    if s == "" then "" else (if s[0] == c then with else [s[0]]) + Replace(s[1..], c, with)
  }

  predicate IsHex(c: char) {
    '0' <= c <= '9' || 'A' <= c <= 'F' || 'a' <= c <= 'f'
  }

  function HexValue(c: char): (n: nat)
    requires IsHex(c)
    ensures n < 16
  {
    if c <= '9' then c as int - '0' as int
    else if c <= 'F' then c as int - 'A' as int + 10
    else c as int - 'a' as int + 10
  }

  function HexDigit(n: nat): (c: char)
    requires n < 16
    ensures IsHex(c) && HexValue(c) == n
  {
    if n < 10 then ('0' as int + n) as char else ('A' as int + n - 10) as char
  }

  /** A percent-encoded octet (section 2.1 of RFC 3986). */
  function PercentEncoded(c: char): (r: string)
    requires c as int < 128
    ensures |r| == 3 && r[0] == '%' && IsHex(r[1]) && IsHex(r[2])
    ensures HexValue(r[1]) * 16 + HexValue(r[2]) == c as int
  {
    ['%', HexDigit(c as int / 16), HexDigit(c as int % 16)]
  }

  /** Each reserved character percent-encoded, every other one as it is. */
  function Encoded(s: string, reserved: set<char>): string
    requires Ascii(reserved)
  {
    if s == "" then ""
    else (if s[0] in reserved then PercentEncoded(s[0]) else [s[0]]) + Encoded(s[1..], reserved)
  }

  predicate Ascii(reserved: set<char>) {
    forall c :: c in reserved ==> c as int < 128
  }

  ghost predicate Free(s: string, reserved: set<char>) {
    forall i :: 0 <= i < |s| ==> s[i] !in reserved
  }

  /** Percent-decoding; an octet outside ASCII is left as it stands (`Encoded` never writes one). */
  function Decoded(s: string): string {
    if s == "" then ""
    else if |s| >= 3 && s[0] == '%' && IsHex(s[1]) && IsHex(s[2]) && HexValue(s[1]) * 16 + HexValue(s[2]) < 128 then
      [(HexValue(s[1]) * 16 + HexValue(s[2])) as char] + Decoded(s[3..])
    else
      [s[0]] + Decoded(s[1..])
  }

  lemma {:induction false} DecodedUndoes(s: string, reserved: set<char>)
    requires Ascii(reserved) && '%' in reserved
    ensures Decoded(Encoded(s, reserved)) == s
  {
    if s == "" {
    } else {
      DecodedUndoes(s[1..], reserved);
      var rest := Encoded(s[1..], reserved);
      if s[0] in reserved {
        assert (PercentEncoded(s[0]) + rest)[3..] == rest;
      } else {
        assert ([s[0]] + rest)[1..] == rest;
      }
    }
  }

  /** Text is left alone exactly when it holds no reserved character. */
  lemma {:induction false} UntouchedWhenFree(s: string, reserved: set<char>)
    requires Ascii(reserved)
    ensures |Encoded(s, reserved)| >= |s|
    ensures Encoded(s, reserved) == s <==> Free(s, reserved)
  {
    if s == "" {
    } else {
      UntouchedWhenFree(s[1..], reserved);
      FreeSplit(s, reserved);
      if s[0] !in reserved {
        assert ([s[0]] + Encoded(s[1..], reserved))[1..] == Encoded(s[1..], reserved);
      }
    }
  }

  lemma FreeSplit(s: string, reserved: set<char>)
    requires s != ""
    ensures Free(s, reserved) <==> s[0] !in reserved && Free(s[1..], reserved)
  {
    if s[0] !in reserved && Free(s[1..], reserved) {
      forall i | 0 <= i < |s|
        ensures s[i] !in reserved
      {
        assert i > 0 ==> s[i] == s[1..][i - 1];
      }
    }
  }

  // ---------------------------------------------------------------- the chain of replacements

  lemma {:induction false} ReplaceAppends(a: string, b: string, c: char, with: string)
    ensures Replace(a + b, c, with) == Replace(a, c, with) + Replace(b, c, with)
  {
    if a == "" {
      assert a + b == b;
    } else {
      assert (a + b)[1..] == a[1..] + b;
      ReplaceAppends(a[1..], b, c, with);
    }
  }

  lemma {:induction false} ReplaceAbsent(s: string, c: char, with: string)
    requires c !in s
    ensures Replace(s, c, with) == s
  {
    if s != "" {
      ReplaceAbsent(s[1..], c, with);
    }
  }

  /** One more replacement is one more reserved character, if `%` is replaced before any other. */
  lemma {:induction false} ReplaceExtends(s: string, reserved: set<char>, c: char)
    requires Ascii(reserved + {c}) && c !in reserved && !IsHex(c)
    requires c == '%' ==> reserved == {}
    ensures Replace(Encoded(s, reserved), c, PercentEncoded(c)) == Encoded(s, reserved + {c})
  {
    if s == "" {
    } else {
      var head := if s[0] in reserved then PercentEncoded(s[0]) else [s[0]];
      ReplaceAppends(head, Encoded(s[1..], reserved), c, PercentEncoded(c));
      ReplaceExtends(s[1..], reserved, c);
      if s[0] in reserved {
        assert c !in PercentEncoded(s[0]);
        ReplaceAbsent(PercentEncoded(s[0]), c, PercentEncoded(c));
      } else {
        assert [s[0]][1..] == "";
        assert Replace([s[0]], c, PercentEncoded(c)) == (if s[0] == c then PercentEncoded(c) else [s[0]]);
      }
    }
  }

  /** Replacing `%` last would escape the escapes: right only for text without the characters replaced before. */
  lemma {:induction false} PercentLast(s: string, reserved: set<char>)
    requires Ascii(reserved) && '%' !in reserved
    ensures |Replace(Encoded(s, reserved), '%', "%25")| >= |Encoded(s, reserved + {'%'})|
    ensures Replace(Encoded(s, reserved), '%', "%25") == Encoded(s, reserved + {'%'}) <==> Free(s, reserved)
  {
    if s == "" {
    } else {
      var head := if s[0] in reserved then PercentEncoded(s[0]) else [s[0]];
      var rest, wanted := Encoded(s[1..], reserved), Encoded(s[1..], reserved + {'%'});
      ReplaceAppends(head, rest, '%', "%25");
      PercentLast(s[1..], reserved);
      FreeSplit(s, reserved);
      if s[0] in reserved {
        assert Replace(head, '%', "%25") == "%25" + Replace(head[1..], '%', "%25");
        ReplaceAbsent(head[1..], '%', "%25");
      } else {
        assert [s[0]][1..] == "";
        var first := Replace(head, '%', "%25");
        assert first == (if s[0] == '%' then "%25" else [s[0]]);
        assert PercentEncoded('%') == "%25";
        assert (first + Replace(rest, '%', "%25"))[|first|..] == Replace(rest, '%', "%25");
        assert (first + wanted)[|first|..] == wanted;
      }
    }
  }

  const USER_RESERVED: set<char> := {'%', '@', ':', '/'}
  const PASSWORD_RESERVED: set<char> := {'%', '@'}

  /** `_url_user`: the loop of replacements is the per-character encoding. */
  method UrlUser(user: string) returns (value: string)
    ensures value == Encoded(user, USER_RESERVED)
  {
    var pairs := [('%', "%25"), ('@', "%40"), (':', "%3A"), ('/', "%2F")];
    value := user;
    ghost var done: seq<set<char>> := [{}, {'%'}, {'%', '@'}, {'%', '@', ':'}, USER_RESERVED];
    UntouchedWhenFree(user, {});
    for i := 0 to |pairs|
      invariant value == Encoded(user, done[i])
    {
      var (c, escaped) := pairs[i];
      assert escaped == PercentEncoded(c);
      assert done[i + 1] == done[i] + {c};
      ReplaceExtends(user, done[i], c);
      value := Replace(value, c, escaped);
    }
  }

  /** `_url_password`. */
  function UrlPassword(password: string): string {
    Replace(Replace(password, '%', "%25"), '@', "%40")
  }

  lemma UrlPasswordIsEncoding(password: string)
    ensures UrlPassword(password) == Encoded(password, PASSWORD_RESERVED)
  {
    UntouchedWhenFree(password, {});
    assert PercentEncoded('%') == "%25" && PercentEncoded('@') == "%40";
    ReplaceExtends(password, {}, '%');
    ReplaceExtends(password, {} + {'%'}, '@');
    assert {} + {'%'} + {'@'} == PASSWORD_RESERVED;
  }

  // ---------------------------------------------------------------- the URL

  datatype Settings = Settings(user: string, password: string, server: string, port: int, db: string)

  const SCHEME: string := "postgresql+asyncpg://"

  function PortText(port: int): string {
    if port < 0 then "-" + Decimal(-port) else Decimal(port)
  }

  function Location(s: Settings): string {
    s.server + ":" + PortText(s.port) + "/" + s.db
  }

  /** What `database_url` is to be, with the per-character encoding. */
  function Url(s: Settings): string {
    SCHEME + Encoded(s.user, USER_RESERVED) + ":" + Encoded(s.password, PASSWORD_RESERVED) + "@" + Location(s)
  }

  // ---------------------------------------------------------------- the engine's side

  datatype Parts = Parts(user: string, password: string, location: string)

  /** The length of the longest start of `s` without a character of `stops`. */
  function Until(s: string, stops: set<char>): (n: nat)
    ensures n <= |s|
  {
    if s == "" || s[0] in stops then 0 else 1 + Until(s[1..], stops)
  }

  /**
   How the engine reads a URL: the user ends at the first `:` (a `/` before it ends the credentials),
   the password at the first `@`, and both are percent-decoded.
   */
  function Parse(url: string): Option<Parts> {
    if !(SCHEME <= url) then None else
    var rest := url[|SCHEME|..];
    var i := Until(rest, {':', '/'});
    if i == |rest| || rest[i] != ':' then None else
    var afterUser := rest[i + 1..];
    var j := Until(afterUser, {'@'});
    if j == |afterUser| then None else
    Some(Parts(Decoded(rest[..i]), Decoded(afterUser[..j]), afterUser[j + 1..]))
  }

  lemma {:induction false} UntilStop(a: string, stop: char, b: string, stops: set<char>)
    requires Free(a, stops) && stop in stops
    ensures Until(a + [stop] + b, stops) == |a|
  {
    if a == "" {
      assert a + [stop] + b == [stop] + b;
    } else {
      assert (a + [stop] + b)[1..] == a[1..] + [stop] + b;
      UntilStop(a[1..], stop, b, stops);
    }
  }

  /** Encoded text holds no reserved character other than the `%` of its escapes. */
  lemma {:induction false} EncodedIsFree(s: string, reserved: set<char>, stops: set<char>)
    requires Ascii(reserved) && stops <= reserved && '%' !in stops
    requires forall c :: c in stops ==> !IsHex(c)
    ensures Free(Encoded(s, reserved), stops)
  {
    if s != "" {
      EncodedIsFree(s[1..], reserved, stops);
    }
  }

  lemma SplitAt(a: string, c: char, b: string)
    ensures var s := a + [c] + b; s[..|a|] == a && s[|a|] == c && s[|a| + 1..] == b
  {
  }

  /** The engine gets back the user, the password and the rest of the URL, whatever they are. */
  lemma ParseUndoes(s: Settings)
    ensures Parse(Url(s)) == Some(Parts(s.user, s.password, Location(s)))
  {
    var user, password := Encoded(s.user, USER_RESERVED), Encoded(s.password, PASSWORD_RESERVED);
    var afterUser := password + ['@'] + Location(s);
    var rest := user + [':'] + afterUser;
    assert Url(s) == SCHEME + rest;
    EncodedIsFree(s.user, USER_RESERVED, {':', '/'});
    EncodedIsFree(s.password, PASSWORD_RESERVED, {'@'});
    UntilStop(user, ':', afterUser, {':', '/'});
    SplitAt(user, ':', afterUser);
    UntilStop(password, '@', Location(s), {'@'});
    SplitAt(password, '@', Location(s));
    DecodedUndoes(s.user, USER_RESERVED);
    DecodedUndoes(s.password, PASSWORD_RESERVED);
  }

  // ---------------------------------------------------------------- through configparser

  /** configparser's interpolation: `%%` is a `%`; any other `%` is an option reference or an error. */
  function Interpolated(s: string): Option<string> {
    if s == "" then Some("")
    else if s[0] != '%' then
      match Interpolated(s[1..])
      case None => None
      case Some(rest) => Some([s[0]] + rest)
    else if |s| >= 2 && s[1] == '%' then
      match Interpolated(s[2..])
      case None => None
      case Some(rest) => Some("%" + rest)
    else None
  }

  lemma {:induction false} DoublingIsUndone(s: string)
    ensures Interpolated(Replace(s, '%', "%%")) == Some(s)
  {
    if s == "" {
    } else {
      DoublingIsUndone(s[1..]);
      var rest := Replace(s[1..], '%', "%%");
      assert s == [s[0]] + s[1..];
      if s[0] == '%' {
        assert ("%%" + rest)[2..] == rest;
      } else {
        assert ([s[0]] + rest)[1..] == rest;
      }
    }
  }

  lemma {:induction false} PassesWithoutPercent(s: string)
    ensures Interpolated(s).Some? ==> |Interpolated(s).value| <= |s|
    ensures Interpolated(s) == Some(s) <==> '%' !in s
    decreases |s|
  {
    if s == "" {
    } else if s[0] != '%' {
      PassesWithoutPercent(s[1..]);
      assert s == [s[0]] + s[1..];
      if Interpolated(s[1..]).Some? {
        assert ([s[0]] + Interpolated(s[1..]).value)[1..] == Interpolated(s[1..]).value;
      }
    } else if |s| >= 2 && s[1] == '%' {
      PassesWithoutPercent(s[2..]);
    }
  }

  lemma {:induction false} EncodedPercent(s: string, reserved: set<char>)
    requires Ascii(reserved) && '%' in reserved
    ensures '%' in Encoded(s, reserved) <==> !Free(s, reserved)
  {
    if s != "" {
      EncodedPercent(s[1..], reserved);
      FreeSplit(s, reserved);
      var head := if s[0] in reserved then PercentEncoded(s[0]) else [s[0]];
      assert '%' in head <==> s[0] in reserved;
    }
  }

  /** Without the doubling, Alembic reads the URL right exactly when nothing in it had to be escaped. */
  lemma UndoubledPassesWhen(s: Settings)
    ensures Interpolated(Url(s)) == Some(Url(s)) <==>
              Free(s.user, USER_RESERVED) && Free(s.password, PASSWORD_RESERVED)
              && '%' !in s.server && '%' !in s.db
  {
    PassesWithoutPercent(Url(s));
    EncodedPercent(s.user, USER_RESERVED);
    EncodedPercent(s.password, PASSWORD_RESERVED);
    PercentInUrl(s);
  }

  lemma PercentInUrl(s: Settings)
    ensures '%' in Url(s) <==>
            || '%' in Encoded(s.user, USER_RESERVED) || '%' in Encoded(s.password, PASSWORD_RESERVED)
            || '%' in s.server || '%' in s.db
  {
    var user, password := Encoded(s.user, USER_RESERVED), Encoded(s.password, PASSWORD_RESERVED);
    assert '%' !in SCHEME;
    PercentInJoined(SCHEME, user, ":", password, "@", Location(s));
    PercentInJoined(s.server, ":", PortText(s.port), "/", s.db, "");
    assert s.server + ":" + PortText(s.port) + "/" + s.db + "" == Location(s);
  }

  lemma PercentInJoined(a: string, b: string, c: string, d: string, e: string, f: string)
    ensures '%' in a + b + c + d + e + f <==>
            '%' in a || '%' in b || '%' in c || '%' in d || '%' in e || '%' in f
  {
    InConcat(a, b);
    InConcat(a + b, c);
    InConcat(a + b + c, d);
    InConcat(a + b + c + d, e);
    InConcat(a + b + c + d + e, f);
  }

  lemma InConcat(a: string, b: string)
    ensures '%' in a + b <==> '%' in a || '%' in b
  {
  }

  // ---------------------------------------------------------------- the properties of the settings

  method DatabaseUrl(s: Settings) returns (url: string)
    ensures url == Url(s)
    ensures Parse(url) == Some(Parts(s.user, s.password, Location(s)))
  {
    var user := UrlUser(s.user);
    UrlPasswordIsEncoding(s.password);
    ParseUndoes(s);
    url := SCHEME + user + ":" + UrlPassword(s.password) + "@" + Location(s);
  }

  method AlembicDatabaseUrl(s: Settings) returns (url: string)
    ensures Interpolated(url) == Some(Url(s))
    ensures url == Url(s) <==> '%' !in Url(s)
  {
    url := DatabaseUrl(s);
    DoublingIsUndone(url);
    PassesWithoutPercent(url);
    url := Replace(url, '%', "%%");
    if '%' !in Url(s) {
      ReplaceAbsent(Url(s), '%', "%%");
    }
  }

  /** The port is read back from its place in the URL. */
  lemma PortIsRead(s: Settings) returns (digits: string)
    ensures IsNumeral(digits) && Numeral(digits) == (if s.port < 0 then -s.port else s.port)
    ensures Location(s) == s.server + ":" + (if s.port < 0 then "-" + digits else digits) + "/" + s.db
  {
    digits := Decimal(if s.port < 0 then -s.port else s.port);
    PaddedIsRead(0, if s.port < 0 then -s.port else s.port);
    assert Zeros(0) + digits == digits;
  }

  lemma ExamplePort()
    ensures Decimal(5432) == "5432"
  {
    assert Decimal(54) == Decimal(5) + [Digit(4)];
    assert Decimal(543) == Decimal(54) + [Digit(3)];
    assert Decimal(5432) == Decimal(543) + [Digit(2)];
  }

  /** The place of everything, in one URL. */
  lemma ExampleUrl()
    ensures Url(Settings("u", "%", "db", 5432, "main")) == "postgresql+asyncpg://u:%25@db:5432/main"
  {
    ExamplePort();
    UntouchedWhenFree("u", USER_RESERVED);
    assert Encoded("%", PASSWORD_RESERVED) == "%25";
  }
}
