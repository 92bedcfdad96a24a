/** The cookie helpers of the `$$` wrapper: `getCookie` parses a cookie string
    and `setCookie` formats one. The cookie string is a plain input or output;
    the browser's cookie jar is not part of this model. */
module Cookies {

  import opened Wrappers

  /** Parts of a string joined with a separator (the inverse of Split). */
  function Join(parts: seq<string>, sep: char): string
    requires |parts| > 0
  {
    if |parts| == 1 then parts[0] else parts[0] + [sep] + Join(parts[1..], sep)
  }

  /** `s.split(sep)` for a one-character separator: always at least one part,
      no part holds the separator, and joining the parts gives `s` back. */
  function Split(s: string, sep: char): (parts: seq<string>)
    ensures |parts| > 0
    ensures forall i :: 0 <= i < |parts| ==> sep !in parts[i]
    ensures Join(parts, sep) == s
    decreases |s|
  {
    if s == [] then [[]]
    else if s[0] == sep then [[]] + Split(s[1..], sep)
    else
      var rest := Split(s[1..], sep);
      [[s[0]] + rest[0]] + rest[1..]
  }

  /** A separator-free string splits into itself alone. */
  lemma {:induction false} SplitSingle(p: string, sep: char)
    requires sep !in p
    ensures Split(p, sep) == [p]
    decreases |p|
  {
    if p != [] {
      assert p[0] != sep by { assert p[0] in p; }
      assert sep !in p[1..] by { assert forall x :: x in p[1..] ==> x in p; }
      SplitSingle(p[1..], sep);
      assert p == [p[0]] + p[1..];
    }
  }

  /** A separator-free field followed by the separator splits off as the first part. */
  lemma {:induction false} SplitField(a: string, b: string, sep: char)
    requires sep !in a
    ensures Split(a + [sep] + b, sep) == [a] + Split(b, sep)
    decreases |a|
  {
    if a == [] {
      assert a + [sep] + b == [sep] + b;
      assert ([sep] + b)[1..] == b;
    } else {
      assert (a + [sep] + b)[1..] == a[1..] + [sep] + b;
      assert sep !in a[1..] by { assert forall x :: x in a[1..] ==> x in a; }
      SplitField(a[1..], b, sep);
      assert a[0] != sep by { assert a[0] in a; }
      assert a == [a[0]] + a[1..];
    }
  }

  /** Splitting recovers the parts of a join when none holds the separator. */
  lemma {:induction false} SplitJoin(parts: seq<string>, sep: char)
    requires |parts| > 0
    requires forall i :: 0 <= i < |parts| ==> sep !in parts[i]
    ensures Split(Join(parts, sep), sep) == parts
    decreases |parts|
  {
    if |parts| == 1 {
      SplitSingle(parts[0], sep);
    } else {
      assert sep !in parts[0];
      SplitField(parts[0], Join(parts[1..], sep), sep);
      SplitJoin(parts[1..], sep);
      assert parts == [parts[0]] + parts[1..];
    }
  }

  /** `c` with its leading spaces removed (only U+0020, as getCookie's
      `charAt(0) == ' '` loop does). */
  function StripSpaces(c: string): (r: string)
    ensures |r| <= |c| && r == c[|c| - |r|..]
    ensures forall i :: 0 <= i < |c| - |r| ==> c[i] == ' '
    ensures r == [] || r[0] != ' '
  {
    if c != [] && c[0] == ' ' then StripSpaces(c[1..]) else c
  }

  /** `c.indexOf(name) == 0`: `name` is a prefix of `c`. */
  predicate StartsWith(c: string, name: string)
  {
    |name| <= |c| && c[..|name|] == name
  }

  /** The value after `name` in the first segment that starts with it once its
      leading spaces are removed, or the empty string. */
  function FirstValue(segments: seq<string>, name: string): string
  {
    if segments == [] then ""
    else
      var c := StripSpaces(segments[0]);
      if StartsWith(c, name) then c[|name|..] else FirstValue(segments[1..], name)
  }

  /** `getCookie(cname)` on the cookie string `cookie`, as a specification. */
  function CookieValue(cookie: string, cname: string): string
  {
    FirstValue(Split(cookie, ';'), cname + "=")
  }

  /** `getCookie(cname)`: the loop over the `;`-separated segments, with the
      inner loop that strips leading spaces and the early return. */
  method GetCookie(cookie: string, cname: string) returns (value: string)
    ensures value == CookieValue(cookie, cname)
  {
    var name := cname + "=";
    var ca := Split(cookie, ';');
    for i := 0 to |ca|
      invariant FirstValue(ca[i..], name) == FirstValue(ca, name)
    {
      var c := ca[i];
      while |c| > 0 && c[0] == ' '
        invariant StripSpaces(c) == StripSpaces(ca[i])
      {
        c := c[1..];
      }
      FirstValueAt(ca, i, name);
      if StartsWith(c, name) {
        return c[|name|..];
      }
    }
    return "";
  }

  /** One step of the segment loop: the first value from segment `i` on. */
  lemma FirstValueAt(segments: seq<string>, i: nat, name: string)
    requires i < |segments|
    ensures FirstValue(segments[i..], name) ==
      var c := StripSpaces(segments[i]);
      if StartsWith(c, name) then c[|name|..] else FirstValue(segments[i + 1..], name)
  {
    assert segments[i..][0] == segments[i];
    assert segments[i..][1..] == segments[i + 1..];
  }

  /** The value read is the suffix of the first matching segment. */
  lemma {:induction false} FirstValueIsFirstMatch(segments: seq<string>, name: string, j: nat)
    requires j < |segments| && StartsWith(StripSpaces(segments[j]), name)
    requires forall i :: 0 <= i < j ==> !StartsWith(StripSpaces(segments[i]), name)
    ensures FirstValue(segments, name) == StripSpaces(segments[j])[|name|..]
  {
    if j > 0 {
      assert !StartsWith(StripSpaces(segments[0]), name);
      FirstValueIsFirstMatch(segments[1..], name, j - 1);
    }
  }

  /** With no matching segment the value is the empty string. */
  lemma {:induction false} FirstValueNoMatch(segments: seq<string>, name: string)
    requires forall i :: 0 <= i < |segments| ==> !StartsWith(StripSpaces(segments[i]), name)
    ensures FirstValue(segments, name) == ""
  {
    if segments != [] {
      assert !StartsWith(StripSpaces(segments[0]), name);
      FirstValueNoMatch(segments[1..], name);
    }
  }

  /** The value is a piece of one segment, so it never holds a separator. */
  lemma {:induction false} FirstValueHasNoSeparator(segments: seq<string>, name: string, sep: char)
    requires forall i :: 0 <= i < |segments| ==> sep !in segments[i]
    ensures sep !in FirstValue(segments, name)
  {
    if segments != [] {
      var c := StripSpaces(segments[0]);
      if StartsWith(c, name) {
        assert forall x :: x in c[|name|..] ==> x in segments[0];
      } else {
        FirstValueHasNoSeparator(segments[1..], name, sep);
      }
    }
  }

  /** getCookie never returns text holding `;`. */
  lemma CookieValueHasNoSemicolon(cookie: string, cname: string)
    ensures ';' !in CookieValue(cookie, cname)
  {
    FirstValueHasNoSeparator(Split(cookie, ';'), cname + "=", ';');
  }

  /** The expiry setCookie writes: `session` when `expires` is null or undefined (None). */
  function ExpiresText(expires: Option<string>): string
  {
    if expires.None? then "session" else expires.value
  }

  /** The path setCookie writes: a missing path prints as `undefined`. */
  function PathText(path: Option<string>): string
  {
    if path.None? then "undefined" else path.value
  }

  /** `setCookie(key, val, expires, path)`: the string written to `document.cookie`. */
  function FormatCookie(key: string, val: string, expires: Option<string>, path: Option<string>): string
  {
    key + "=" + val + "; expires=" + ExpiresText(expires) + "; path=" + PathText(path)
  }

  lemma FormatCookieShape(key: string, val: string, expires: Option<string>, path: Option<string>)
    ensures FormatCookie(key, val, expires, path) ==
      (key + "=" + val) + [';'] + ((" expires=" + ExpiresText(expires)) + [';'] + (" path=" + PathText(path)))
  {
    var pair, e, p := key + "=" + val, ExpiresText(expires), PathText(path);
    assert "; expires=" == [';'] + " expires=";
    assert "; path=" == [';'] + " path=";
    calc {
      FormatCookie(key, val, expires, path);
      pair + "; expires=" + e + "; path=" + p;
      pair + ([';'] + " expires=") + e + ([';'] + " path=") + p;
      pair + [';'] + ((" expires=" + e) + [';'] + (" path=" + p));
    }
  }

  lemma SeparatorFreeConcat(a: string, b: string, sep: char)
    requires sep !in a && sep !in b
    ensures sep !in a + b
  {
  }

  /** The formatted string has exactly three fields: the pair, the expiry
      (`session` when none is given) and the path. */
  lemma FormatCookieFields(key: string, val: string, expires: Option<string>, path: Option<string>)
    requires ';' !in key && ';' !in val
    requires ';' !in ExpiresText(expires) && ';' !in PathText(path)
    ensures Split(FormatCookie(key, val, expires, path), ';') ==
      [key + "=" + val, " expires=" + ExpiresText(expires), " path=" + PathText(path)]
  {
    var a, b, c := key + "=" + val, " expires=" + ExpiresText(expires), " path=" + PathText(path);
    SeparatorFreeConcat(key, "=", ';');
    SeparatorFreeConcat(key + "=", val, ';');
    SeparatorFreeConcat(" expires=", ExpiresText(expires), ';');
    SeparatorFreeConcat(" path=", PathText(path), ';');
    var parts := [a, b, c];
    assert Join(parts[2..], ';') == c;
    assert Join(parts[1..], ';') == b + [';'] + c;
    assert Join(parts, ';') == a + [';'] + (b + [';'] + c);
    FormatCookieShape(key, val, expires, path);
    SplitJoin(parts, ';');
  }

  /** Read back as a cookie string, what setCookie formats gives the value
      under its key, whatever the expiry and path. */
  lemma SetThenGetCookie(key: string, val: string, expires: Option<string>, path: Option<string>)
    requires ';' !in key && ';' !in val
    requires key == [] || key[0] != ' '
    ensures CookieValue(FormatCookie(key, val, expires, path), key) == val
  {
    var pair := key + "=" + val;
    var name := key + "=";
    FormatCookieShape(key, val, expires, path);
    SeparatorFreeConcat(key, "=", ';');
    SeparatorFreeConcat(name, val, ';');
    SplitField(pair, (" expires=" + ExpiresText(expires)) + [';'] + (" path=" + PathText(path)), ';');
    var segs := Split(FormatCookie(key, val, expires, path), ';');
    assert segs[0] == pair;
    assert pair[0] != ' ' by { assert pair[0] == name[0]; }
    assert StripSpaces(pair) == pair;
    assert pair[..|name|] == name;
    FirstValueIsFirstMatch(segs, name, 0);
    assert pair[|name|..] == val;
  }
}
