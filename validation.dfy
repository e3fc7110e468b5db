/** The account rules of the user controller that are plain tests on text and time: the
    email and password regular expressions, the length rule on the full name and the
    trimming of the stored name, the age limit of a reset token, and the verification mail
    built from its template by a chain of `replace` calls. Strings are sequences of Unicode
    scalar values; JavaScript measures and matches them in UTF-16 code units, so the length
    rules and the regular expressions are stated on the code units. */
module Validation {
  import opened Common
  import opened Text

  /** `\s` of a JavaScript regular expression and the set `trim` strips: the white space
      and line terminator characters of ECMAScript. */
  predicate JsSpace(c: char) {
    var n := c as int;
    n == 0x09 || n == 0x0A || n == 0x0B || n == 0x0C || n == 0x0D || n == 0x20 || n == 0xA0 ||
    n == 0x1680 || (0x2000 <= n <= 0x200A) || n == 0x2028 || n == 0x2029 || n == 0x202F ||
    n == 0x205F || n == 0x3000 || n == 0xFEFF
  }

  /** The code units `.` does not match. */
  predicate LineTerminator(n: int) {
    n == 0x0A || n == 0x0D || n == 0x2028 || n == 0x2029
  }

  /** The UTF-16 code units of one character. */
  function Units(c: char): (r: seq<int>)
    ensures |r| == 1 || |r| == 2
    ensures |r| == 1 <==> c as int < 0x10000
    ensures |r| == 2 ==> 0xD800 <= r[0] <= 0xDBFF && 0xDC00 <= r[1] <= 0xDFFF
  {
    var n := c as int;
    if n < 0x10000 then [n] else [0xD800 + (n - 0x10000) / 0x400, 0xDC00 + (n - 0x10000) % 0x400]
  }

  function Utf16(s: string): seq<int> {
    if s == [] then [] else Units(s[0]) + Utf16(s[1..])
  }

  /** JavaScript's `length`. */
  function Utf16Length(s: string): nat {
    |Utf16(s)|
  }

  /** A test that only code units below the surrogates pass holds of some unit of the text exactly
      when it holds of some character. */
  lemma {:induction false} SomeUnit(s: string, p: int -> bool)
    requires forall n :: p(n) ==> n < 0xD800
    ensures (exists k :: 0 <= k < |Utf16(s)| && p(Utf16(s)[k])) <==> (exists i :: 0 <= i < |s| && p(s[i] as int))
  {
    if s != [] {
      SomeUnit(s[1..], p);
      var u := Units(s[0]);
      var rest := Utf16(s[1..]);
      assert Utf16(s) == u + rest;
      assert p(u[0]) <==> p(s[0] as int);
      if exists k :: 0 <= k < |Utf16(s)| && p(Utf16(s)[k]) {
        var k :| 0 <= k < |Utf16(s)| && p(Utf16(s)[k]);
        if k >= |u| {
          assert p(rest[k - |u|]);
          var i :| 0 <= i < |s[1..]| && p(s[1..][i] as int);
          assert s[i + 1] == s[1..][i];
        }
      }
      if exists i :: 0 <= i < |s| && p(s[i] as int) {
        var i :| 0 <= i < |s| && p(s[i] as int);
        if i == 0 {
          assert Utf16(s)[0] == u[0];
        } else {
          assert s[1..][i - 1] == s[i];
          var k :| 0 <= k < |rest| && p(rest[k]);
          assert Utf16(s)[k + |u|] == rest[k];
        }
      }
    }
  }

  // ---------------------------------------------------------------------------------------------
  // Email

  /** A character `[^\s@]` matches. */
  predicate Plain(c: char) {
    c != '@' && !JsSpace(c)
  }

  predicate PlainRun(s: string) {
    |s| >= 1 && forall k :: 0 <= k < |s| ==> Plain(s[k])
  }

  predicate EmailParts(s: string, local: string, host: string, top: string) {
    s == local + "@" + host + "." + top && PlainRun(local) && PlainRun(host) && PlainRun(top)
  }

  /** What `/^[^\s@]+@[^\s@]+\.[^\s@]+$/` matches: three runs of characters other than white
      space and `@`, joined by an `@` and a dot. */
  ghost predicate EmailPattern(s: string) {
    exists local, host, top :: EmailParts(s, local, host, top)
  }

  /** The test as the handlers can run it: one `@`, something before it, no white space,
      and a dot after the `@` with text on both of its sides. */
  predicate IsEmail(s: string) {
    var parts := Split(s, '@');
    |parts| == 2 && parts[0] != "" && (forall k | 0 <= k < |s| :: !JsSpace(s[k])) &&
    exists j | 1 <= j < |parts[1]| - 1 :: parts[1][j] == '.'
  }

  lemma EmailSound(s: string)
    requires IsEmail(s)
    ensures EmailPattern(s)
  {
    var parts := Split(s, '@');
    JoinSplit(s, '@');
    var d := parts[1];
    var j :| 1 <= j < |d| - 1 && d[j] == '.';
    assert s == parts[0] + "@" + d;
    assert d == d[..j] + "." + d[j + 1..];
    var local, host, top := parts[0], d[..j], d[j + 1..];
    assert s == local + "@" + host + "." + top;
    forall k | 0 <= k < |local| ensures Plain(local[k]) {
      assert local[k] == s[k];
    }
    forall k | 0 <= k < |host| ensures Plain(host[k]) {
      assert host[k] == d[k];
      assert d[k] == s[|local| + 1 + k];
    }
    forall k | 0 <= k < |top| ensures Plain(top[k]) {
      assert top[k] == d[j + 1 + k];
      assert d[j + 1 + k] == s[|local| + 1 + j + 1 + k];
    }
    assert EmailParts(s, local, host, top);
  }

  lemma EmailComplete(s: string, local: string, host: string, top: string)
    requires EmailParts(s, local, host, top)
    ensures IsEmail(s)
  {
    var d := host + "." + top;
    assert NoChar(d, '@') by {
      forall k | 0 <= k < |d| ensures d[k] != '@' {
        if k < |host| { assert d[k] == host[k]; }
        else if k > |host| { assert d[k] == top[k - |host| - 1]; }
      }
    }
    assert NoChar(local, '@');
    assert Join([local, d], "@") == s;
    SplitJoin([local, d], '@');
    assert d[|host|] == '.';
    forall k | 0 <= k < |s| ensures !JsSpace(s[k]) {
      if k < |local| { assert s[k] == local[k]; }
      else if k > |local| { assert s[k] == d[k - |local| - 1]; }
    }
    assert JsSpace(d[|host|]) == false;
  }

  /** The email test accepts exactly what the regular expression matches. */
  lemma EmailAccepted(s: string)
    ensures IsEmail(s) <==> EmailPattern(s)
  {
    if IsEmail(s) {
      EmailSound(s);
    }
    if EmailPattern(s) {
      var local, host, top :| EmailParts(s, local, host, top);
      EmailComplete(s, local, host, top);
    }
  }

  // ---------------------------------------------------------------------------------------------
  // Password

  predicate AsciiLetter(n: int) {
    ('a' as int <= n <= 'z' as int) || ('A' as int <= n <= 'Z' as int)
  }

  predicate Digit(n: int) {
    '0' as int <= n <= '9' as int
  }

  /** The class `[!@#$%^&*(),.?":{}|<>]`. */
  predicate Special(n: int) {
    n == '!' as int || n == '@' as int || n == '#' as int || n == '$' as int || n == '%' as int ||
    n == '^' as int || n == '&' as int || n == '*' as int || n == '(' as int || n == ')' as int ||
    n == ',' as int || n == '.' as int || n == '?' as int || n == '"' as int || n == ':' as int ||
    n == '{' as int || n == '}' as int || n == '|' as int || n == '<' as int || n == '>' as int
  }

  /** `(?=.*[class])` at the start: a unit of the class with no line terminator before it. */
  ghost predicate LooksAhead(u: seq<int>, p: int -> bool) {
    exists k :: 0 <= k < |u| && p(u[k]) && forall m :: 0 <= m < k ==> !LineTerminator(u[m])
  }

  /** What `/^(?=.*[a-zA-Z])(?=.*[0-9])(?=.*[!@#$%^&*(),.?":{}|<>]).{8,}$/` matches, read on
      the code units of the text. */
  ghost predicate PasswordPattern(s: string) {
    var u := Utf16(s);
    LooksAhead(u, AsciiLetter) && LooksAhead(u, Digit) && LooksAhead(u, Special) &&
    |u| >= 8 && forall k :: 0 <= k < |u| ==> !LineTerminator(u[k])
  }

  /** The test stated on characters: eight code units or more, no line terminator, and a
      letter, a digit and one of the special characters somewhere. */
  predicate IsStrongPassword(s: string) {
    Utf16Length(s) >= 8 &&
    (forall i | 0 <= i < |s| :: !LineTerminator(s[i] as int)) &&
    (exists i | 0 <= i < |s| :: AsciiLetter(s[i] as int)) &&
    (exists i | 0 <= i < |s| :: Digit(s[i] as int)) &&
    (exists i | 0 <= i < |s| :: Special(s[i] as int))
  }

  lemma PasswordAccepted(s: string)
    ensures IsStrongPassword(s) <==> PasswordPattern(s)
  {
    var u := Utf16(s);
    SomeUnit(s, AsciiLetter);
    SomeUnit(s, Digit);
    SomeUnit(s, Special);
    SomeUnit(s, LineTerminator);
    if forall k :: 0 <= k < |u| ==> !LineTerminator(u[k]) {
      LookAheadAnywhere(u, AsciiLetter);
      LookAheadAnywhere(u, Digit);
      LookAheadAnywhere(u, Special);
    }
  }

  /** On a text with no line terminator a lookahead finds its class anywhere. */
  lemma LookAheadAnywhere(u: seq<int>, p: int -> bool)
    requires forall k :: 0 <= k < |u| ==> !LineTerminator(u[k])
    ensures LooksAhead(u, p) <==> exists k :: 0 <= k < |u| && p(u[k])
  {
  }

  // ---------------------------------------------------------------------------------------------
  // Full name

  /** The length rule, applied to the name as it was sent. */
  predicate NameLengthOk(s: string) {
    3 <= Utf16Length(s) <= 50
  }

  /** The end of the run of white space that starts at `from`. */
  function SpaceRunEnd(s: string, from: nat): (i: nat)
    requires from <= |s|
    ensures from <= i <= |s| && (i == |s| || !JsSpace(s[i]))
    ensures forall k :: from <= k < i ==> JsSpace(s[k])
    decreases |s| - from
  {
    if from < |s| && JsSpace(s[from]) then SpaceRunEnd(s, from + 1) else from
  }

  /** The start of the run of white space that ends at `hi`, going back no further than `lo`. */
  function SpaceRunStart(s: string, lo: nat, hi: nat): (j: nat)
    requires lo <= hi <= |s|
    ensures lo <= j <= hi && (j == lo || !JsSpace(s[j - 1]))
    ensures forall k :: j <= k < hi ==> JsSpace(s[k])
    decreases hi
  {
    if hi > lo && JsSpace(s[hi - 1]) then SpaceRunStart(s, lo, hi - 1) else hi
  }

  /** JavaScript's `trim`: the text without white space at either end. */
  function Trim(s: string): string {
    var i := SpaceRunEnd(s, 0);
    s[i..SpaceRunStart(s, i, |s|)]
  }

  /** The trimmed text is the middle of the original, with only white space cut off at each
      end, and begins and ends with something else. */
  lemma TrimExact(s: string)
    ensures exists i, j :: (0 <= i <= j <= |s| && Trim(s) == s[i..j] &&
                            (forall k :: 0 <= k < i ==> JsSpace(s[k])) && (forall k :: j <= k < |s| ==> JsSpace(s[k])))
    ensures Trim(s) == [] || (!JsSpace(Trim(s)[0]) && !JsSpace(Trim(s)[|Trim(s)| - 1]))
  {
    var i := SpaceRunEnd(s, 0);
    var j := SpaceRunStart(s, i, |s|);
    assert Trim(s) == s[i..j];
    if i < j {
      assert Trim(s)[0] == s[i];
      assert Trim(s)[|Trim(s)| - 1] == s[j - 1];
    }
  }

  /** Trimming twice is trimming once. */
  lemma TrimIdempotent(s: string)
    ensures Trim(Trim(s)) == Trim(s)
  {
    var t := Trim(s);
    TrimExact(s);
    assert SpaceRunEnd(t, 0) == 0;
    assert SpaceRunStart(t, 0, |t|) == |t|;
    assert t[0..|t|] == t;
  }

  /** The rule is checked before the trim, so a name that passes it can be stored shorter
      than three characters, here "  a" stored as "a". */
  lemma StoredNameMayBeShort()
    ensures NameLengthOk("  a") && |Trim("  a")| == 1
  {
    assert Utf16("  a") == [0x20, 0x20, 'a' as int] by {
      assert "  a"[1..] == " a";
      assert " a"[1..] == "a";
      assert "a"[1..] == "";
    }
    assert SpaceRunEnd("  a", 0) == 2;
    assert SpaceRunStart("  a", 2, 3) == 3;
    assert "  a"[2..3] == "a";
  }

  // ---------------------------------------------------------------------------------------------
  // Reset tokens

  const DayMillis: int := 24 * 3600 * 1000

  /** The age test of `resetAccountPassword`, on integer milliseconds. */
  predicate TokenExpired(createdAt: int, now: int) {
    now - createdAt > DayMillis
  }

  /** The handler divides the age by the milliseconds of an hour and compares with 24; on
      exact arithmetic that is the millisecond test, and a token exactly one day old is still
      good while one a millisecond older is not. */
  lemma ExpiryInHours(createdAt: int, now: int)
    ensures TokenExpired(createdAt, now) <==> (now - createdAt) as real / 3600000.0 > 24.0
    ensures !TokenExpired(createdAt, createdAt + DayMillis) && TokenExpired(createdAt, createdAt + DayMillis + 1)
  {
  }

  // ---------------------------------------------------------------------------------------------
  // Verification mail

  const LogoUrl: string := "https://res.cloudinary.com/dr2evgkxa/image/upload/v1748427608/logo_jr7xsc.png"
  const LogoSlot: string := "{{logoUrl}}"
  const NameSlot: string := "{{userName}}"
  const VerifySlot: string := "{{verifyUrl}}"
  const YearSlot: string := "{{year}}"

  /** The link of the mail: the request's origin, or the local front end when it has none. */
  function ActivateUrl(origin: string, token: string): string {
    (if origin != "" then origin else "http://localhost:3000") + "/activate/" + token
  }

  /** The chain of `replace` calls that fills in the template. */
  function VerifyMail(template: string, logoUrl: string, userName: string, verifyUrl: string, year: string): string {
    var withLogo := ReplaceFirst(template, LogoSlot, logoUrl);
    var withName := ReplaceFirst(withLogo, NameSlot, userName);
    var withLink := ReplaceAll(withName, VerifySlot, verifyUrl);
    ReplaceFirst(withLink, YearSlot, year)
  }

  /** The template's shape: its text without braces, the logo and greeting slots once each,
      any number of link slots, and the year slot once, in that order. */
  function Template(head: string, greeting: string, links: seq<string>, footer: string): string
    requires |links| >= 1
  {
    head + LogoSlot + greeting + NameSlot + Join(links, VerifySlot) + YearSlot + footer
  }

  predicate Inert(s: string) {
    NoChar(s, '{') && NoChar(s, '$')
  }

  lemma YearTailHasNoLink(footer: string)
    requires NoChar(footer, '{')
    ensures Find(YearSlot + footer, VerifySlot).None?
  {
    var s := YearSlot + footer;
    forall k | 0 <= k <= |s| ensures !MatchAt(s, VerifySlot, k) {
      if k + |VerifySlot| <= |s| {
        var w := s[k..k + |VerifySlot|];
        assert w[0] == s[k] && w[1] == s[k + 1] && w[2] == s[k + 2];
        if k >= |YearSlot| {
          assert s[k] == footer[k - |YearSlot|];
        }
      }
    }
  }

  lemma JoinGlue(p: string, links: seq<string>, sep: string)
    requires |links| >= 1
    ensures p + Join(links, sep) == Join([p + links[0]] + links[1..], sep)
  {
    if |links| > 1 {
      assert ([p + links[0]] + links[1..])[1..] == links[1..];
    }
  }

  /** The first two replacements fill the logo and the greeting. */
  lemma FillLogoAndName(head: string, greeting: string, body: string, logoUrl: string, userName: string)
    requires NoChar(head, '{') && NoChar(greeting, '{') && Inert(logoUrl) && Inert(userName)
    ensures ReplaceFirst(ReplaceFirst(head + LogoSlot + greeting + NameSlot + body, LogoSlot, logoUrl), NameSlot, userName) ==
      head + logoUrl + greeting + userName + body
  {
    assert head + LogoSlot + greeting + NameSlot + body == head + LogoSlot + (greeting + NameSlot + body);
    ReplaceFirstAt(head, LogoSlot, greeting + NameSlot + body, logoUrl);
    var p := head + logoUrl + greeting;
    assert NoChar(p, '{');
    assert head + logoUrl + (greeting + NameSlot + body) == p + NameSlot + body;
    ReplaceFirstAt(p, NameSlot, body, userName);
  }

  lemma GluedFree(q: string, links: seq<string>)
    requires |links| >= 1 && NoChar(q, '{')
    requires forall k :: 0 <= k < |links| ==> NoChar(links[k], '{')
    ensures forall k :: 0 <= k < |[q + links[0]] + links[1..]| ==> NoChar(([q + links[0]] + links[1..])[k], '{')
  {
    var glued := [q + links[0]] + links[1..];
    forall k | 0 <= k < |glued| ensures NoChar(glued[k], '{') {
      if k > 0 { assert glued[k] == links[k]; }
    }
  }

  /** The global replacement fills every link slot, and only those. */
  lemma FillLinks(q: string, links: seq<string>, footer: string, verifyUrl: string)
    requires |links| >= 1 && NoChar(q, '{') && NoChar(footer, '{') && Inert(verifyUrl)
    requires forall k :: 0 <= k < |links| ==> NoChar(links[k], '{')
    ensures ReplaceAll(q + Join(links, VerifySlot) + YearSlot + footer, VerifySlot, verifyUrl) ==
      q + Join(links, verifyUrl) + YearSlot + footer
  {
    var tail := YearSlot + footer;
    var s := q + Join(links, VerifySlot) + tail;
    assert s == q + Join(links, VerifySlot) + YearSlot + footer;
    var glued := [q + links[0]] + links[1..];
    JoinGlue(q, links, VerifySlot);
    JoinGlue(q, links, verifyUrl);
    assert s == Join(glued, VerifySlot) + tail;
    GluedFree(q, links);
    YearTailHasNoLink(footer);
    ReplaceAllLiteral(s, VerifySlot, verifyUrl, 0);
    assert s[0..] == s;
    SubstituteJoin(glued, VerifySlot, verifyUrl, tail);
    var r := Join(glued, verifyUrl) + tail;
    assert ReplaceAll(s, VerifySlot, verifyUrl) == r;
    assert r == q + Join(links, verifyUrl) + YearSlot + footer;
  }

  lemma Assoc(a: string, b: string, c: string)
    ensures a + (b + c) == (a + b) + c
  {
  }

  lemma Regroup(x: string, j: string, y: string, f: string)
    ensures x + (j + y + f) == x + j + y + f
  {
    Assoc(x, j + y, f);
    Assoc(x, j, y);
  }

  /** The logo, the greeting and every link filled in, the year slot still open. */
  lemma FillAllButYear(head: string, greeting: string, links: seq<string>, footer: string,
                       logoUrl: string, userName: string, verifyUrl: string)
    requires |links| >= 1
    requires NoChar(head, '{') && NoChar(greeting, '{') && NoChar(footer, '{')
    requires forall k :: 0 <= k < |links| ==> NoChar(links[k], '{')
    requires Inert(logoUrl) && Inert(userName) && Inert(verifyUrl)
    ensures ReplaceAll(ReplaceFirst(ReplaceFirst(Template(head, greeting, links, footer), LogoSlot, logoUrl), NameSlot, userName), VerifySlot, verifyUrl) ==
      head + logoUrl + greeting + userName + Join(links, verifyUrl) + YearSlot + footer
  {
    var body := Join(links, VerifySlot) + YearSlot + footer;
    var q := head + logoUrl + greeting + userName;
    NoCharAppend(head, logoUrl, '{');
    NoCharAppend(head + logoUrl, greeting, '{');
    NoCharAppend(head + logoUrl + greeting, userName, '{');
    Regroup(head + LogoSlot + greeting + NameSlot, Join(links, VerifySlot), YearSlot, footer);
    FillLogoAndName(head, greeting, body, logoUrl, userName);
    Regroup(q, Join(links, VerifySlot), YearSlot, footer);
    FillLinks(q, links, footer, verifyUrl);
  }

  /** Filled with values that hold no brace and no dollar sign, every slot of the template
      is replaced by its value, every link slot included, and nothing else changes. */
  lemma MailRendersPlaceholders(head: string, greeting: string, links: seq<string>, footer: string,
                                logoUrl: string, userName: string, verifyUrl: string, year: string)
    requires |links| >= 1
    requires NoChar(head, '{') && NoChar(greeting, '{') && NoChar(footer, '{')
    requires forall k :: 0 <= k < |links| ==> NoChar(links[k], '{')
    requires Inert(logoUrl) && Inert(userName) && Inert(verifyUrl) && Inert(year)
    ensures VerifyMail(Template(head, greeting, links, footer), logoUrl, userName, verifyUrl, year) ==
      head + logoUrl + greeting + userName + Join(links, verifyUrl) + year + footer
  {
    var linked := head + logoUrl + greeting + userName + Join(links, verifyUrl);
    NoCharAppend(head, logoUrl, '{');
    NoCharAppend(head + logoUrl, greeting, '{');
    NoCharAppend(head + logoUrl + greeting, userName, '{');
    JoinNoChar(links, verifyUrl, '{');
    NoCharAppend(head + logoUrl + greeting + userName, Join(links, verifyUrl), '{');
    FillAllButYear(head, greeting, links, footer, logoUrl, userName, verifyUrl);
    ReplaceFirstAt(linked, YearSlot, footer, year);
  }

  /** A user called "$&" gets the greeting slot back: `$&` stands for the matched text. */
  lemma DollarNameKeepsSlot(head: string, greeting: string, rest: string)
    requires NoChar(head, '{') && NoChar(greeting, '{')
    ensures ReplaceFirst(head + greeting + NameSlot + rest, NameSlot, "$&") == head + greeting + NameSlot + rest
  {
    var a := head + greeting;
    assert NoChar(a, '{');
    FindAfterFree(a, NameSlot, rest);
    var s := a + NameSlot + rest;
    assert s[..|a|] == a;
    assert s[|a| + |NameSlot|..] == rest;
    assert Expand("$&", NameSlot, a, rest) == NameSlot + Expand("", NameSlot, a, rest);
  }
}
