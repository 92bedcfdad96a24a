/** The mustache renderer of `renderreact`: one global, non-recursive pass of
    `/\{\{((?:.|\r?\n)+?)\}\}/g` over the template, each match replaced by the
    data value stored under its trimmed inner text. */
module Mustache {

  import opened Wrappers

  /** Largest magnitude up to which every integer is exactly a JavaScript
      number (2^53); beyond it doubles skip integers. */
  const MaxSafe: int := 0x20_0000_0000_0000

  /** An integer that JavaScript represents exactly. */
  type SafeInt = n: int | -MaxSafe <= n <= MaxSafe

  /** A value stored under a data key: a JavaScript string or an integral
      number of magnitude at most 2^53, where `===` and the decimal text are
      those of the exact integer. */
  datatype Value = Str(s: string) | Num(n: SafeInt)

  /** What a placeholder whose key is absent from the data renders as. */
  const Undefined: string := "undefined"

  // ---------------------------------------------------------------------------
  // Value to text (the conversion String.prototype.replace applies to the
  // callback's result)
  // ---------------------------------------------------------------------------

  predicate IsDigit(c: char) { '0' <= c <= '9' }

  function DigitChar(d: nat): (c: char)
    requires d < 10
    ensures IsDigit(c) && c as int - '0' as int == d
  {
    (d + '0' as int) as char
  }

  /** Decimal numeral of a natural number, without leading zeros. */
  function NatText(n: nat): (r: string)
    ensures |r| > 0
    ensures forall i :: 0 <= i < |r| ==> IsDigit(r[i])
    ensures r[0] == '0' ==> r == "0"
    decreases n
  {
    if n < 10 then [DigitChar(n)] else NatText(n / 10) + [DigitChar(n % 10)]
  }

  function DigitValue(c: char): nat
    requires IsDigit(c)
  {
    c as int - '0' as int
  }

  /** Value of a decimal numeral. */
  function ParseNat(s: string): nat
    requires forall i :: 0 <= i < |s| ==> IsDigit(s[i])
  {
    if s == [] then 0
    else ParseNat(s[..|s| - 1]) * 10 + DigitValue(s[|s| - 1])
  }

  /** The numeral is a faithful encoding: reading it back gives the number. */
  lemma {:induction false} ParseNatText(n: nat)
    ensures ParseNat(NatText(n)) == n
  {
    var r := NatText(n);
    if n >= 10 {
      ParseNatText(n / 10);
      assert r[..|r| - 1] == NatText(n / 10);
    }
  }

  /** String conversion of a value, as JavaScript performs it for strings and
      for integral numbers of magnitude at most 2^53 (exact decimal digits). */
  function ValueText(v: Value): string
  {
    match v
    case Str(s) => s
    case Num(n) => if n < 0 then "-" + NatText(-n) else NatText(n)
  }

  /** `$data[key]` converted to text: the stored value, or `undefined`. */
  function Lookup(data: map<string, Value>, key: string): string
  {
    if key in data then ValueText(data[key]) else Undefined
  }

  // ---------------------------------------------------------------------------
  // String.prototype.trim
  // ---------------------------------------------------------------------------

  /** ECMAScript LineTerminator: the characters `.` does not match. */
  predicate IsLineTerminator(c: char)
  {
    c == '\n' || c == '\r' || c == '\U{2028}' || c == '\U{2029}'
  }

  /** ECMAScript WhiteSpace (including the Zs category) or LineTerminator:
      the characters trim removes. */
  predicate IsTrimmable(c: char)
  {
    c == '\t' || c == '\U{000B}' || c == '\U{000C}' || c == ' ' || c == '\U{00A0}' ||
    c == '\U{FEFF}' || c == '\U{1680}' || ('\U{2000}' <= c <= '\U{200A}') ||
    c == '\U{202F}' || c == '\U{205F}' || c == '\U{3000}' || IsLineTerminator(c)
  }

  predicate AllTrimmable(s: string)
  {
    forall i :: 0 <= i < |s| ==> IsTrimmable(s[i])
  }

  /** Neither end of `s` is trimmable. */
  predicate IsStripped(s: string)
  {
    s == [] || (!IsTrimmable(s[0]) && !IsTrimmable(s[|s| - 1]))
  }

  /** `s` without its leading whitespace. */
  function TrimStart(s: string): string
  {
    if s != [] && IsTrimmable(s[0]) then TrimStart(s[1..]) else s
  }

  /** `s` without its trailing whitespace. */
  function TrimEnd(s: string): string
  {
    if s != [] && IsTrimmable(s[|s| - 1]) then TrimEnd(s[..|s| - 1]) else s
  }

  /** `String.prototype.trim`. */
  function Trim(s: string): string
  {
    TrimEnd(TrimStart(s))
  }

  /** TrimStart removes exactly the leading whitespace: what is left is a
      suffix that starts with no whitespace, and all that was cut is whitespace. */
  lemma {:induction false} TrimStartSpec(s: string)
    ensures |TrimStart(s)| <= |s| && TrimStart(s) == s[|s| - |TrimStart(s)|..]
    ensures AllTrimmable(s[..|s| - |TrimStart(s)|])
    ensures TrimStart(s) == [] || !IsTrimmable(TrimStart(s)[0])
  {
    if s != [] && IsTrimmable(s[0]) {
      TrimStartSpec(s[1..]);
      var r := TrimStart(s);
      assert s[..|s| - |r|] == [s[0]] + s[1..][..|s| - 1 - |r|];
    }
  }

  /** TrimEnd removes exactly the trailing whitespace. */
  lemma {:induction false} TrimEndSpec(s: string)
    ensures |TrimEnd(s)| <= |s| && TrimEnd(s) == s[..|TrimEnd(s)|]
    ensures AllTrimmable(s[|TrimEnd(s)|..])
    ensures TrimEnd(s) == [] || !IsTrimmable(TrimEnd(s)[|TrimEnd(s)| - 1])
  {
    if s != [] && IsTrimmable(s[|s| - 1]) {
      var s' := s[..|s| - 1];
      TrimEndSpec(s');
      var r := TrimEnd(s);
      assert s[|r|..] == s'[|r|..] + [s[|s| - 1]];
    }
  }

  /** Trim removes exactly the padding: the result is a slice of the input,
      everything cut off is whitespace, and neither end of it is. */
  lemma TrimIsSlice(s: string)
    ensures exists i, j :: 0 <= i <= j <= |s| && Trim(s) == s[i..j] && AllTrimmable(s[..i]) && AllTrimmable(s[j..])
    ensures IsStripped(Trim(s))
  {
    var t := TrimStart(s);
    TrimStartSpec(s);
    var i := |s| - |t|;
    var r := TrimEnd(t);
    TrimEndSpec(t);
    var j := i + |r|;
    assert t == s[i..];
    assert r == t[..|r|];
    assert r == s[i..j];
    assert AllTrimmable(s[..i]);
    assert s[j..] == t[|r|..];
    assert AllTrimmable(s[j..]);
    assert Trim(s) == s[i..j] && AllTrimmable(s[..i]) && AllTrimmable(s[j..]);
    if r != [] {
      assert r[0] == t[0];
    }
  }

  lemma {:induction false} TrimStartPadded(a: string, x: string)
    requires AllTrimmable(a)
    requires x == [] || !IsTrimmable(x[0])
    ensures TrimStart(a + x) == x
  {
    if a != [] {
      assert (a + x)[1..] == a[1..] + x;
      TrimStartPadded(a[1..], x);
    }
  }

  lemma {:induction false} TrimEndPadded(x: string, b: string)
    requires AllTrimmable(b)
    requires x == [] || !IsTrimmable(x[|x| - 1])
    ensures TrimEnd(x + b) == x
  {
    if b != [] {
      assert (x + b)[..|x + b| - 1] == x + b[..|b| - 1];
      TrimEndPadded(x, b[..|b| - 1]);
    }
  }

  /** Whitespace around a key is insignificant: `{{ name }}` and `{{name}}`
      name the same key. */
  lemma TrimPadded(a: string, k: string, b: string)
    requires AllTrimmable(a) && AllTrimmable(b) && IsStripped(k)
    ensures Trim(a + k + b) == k
  {
    if k == [] {
      assert a + k + b == a + b;
      TrimStartPadded(a + b, []);
      assert a + b + [] == a + b;
    } else {
      assert a + k + b == a + (k + b);
      TrimStartPadded(a, k + b);
      TrimEndPadded(k, b);
    }
  }

  // ---------------------------------------------------------------------------
  // The placeholder pattern /\{\{((?:.|\r?\n)+?)\}\}/
  // ---------------------------------------------------------------------------

  /** A closing `}}` starts at index `c` of `s`. */
  predicate CloserAt(s: string, c: int)
  {
    0 <= c && c + 2 <= |s| && s[c] == '}' && s[c + 1] == '}'
  }

  /** `w` is a sequence of units of `(?:.|\r?\n)`: no U+2028 or U+2029, and
      every carriage return is directly followed by a line feed. */
  predicate IsUnits(w: string)
  {
    forall k {:trigger w[k]} :: 0 <= k < |w| ==>
      w[k] != '\U{2028}' && w[k] != '\U{2029}' &&
      (w[k] == '\r' ==> k + 1 < |w| && w[k + 1] == '\n')
  }

  lemma UnitsAppend(w: string, u: string)
    requires IsUnits(w) && IsUnits(u)
    ensures IsUnits(w + u)
  {
    forall k | 0 <= k < |w + u|
      ensures (w + u)[k] != '\U{2028}' && (w + u)[k] != '\U{2029}'
      ensures (w + u)[k] == '\r' ==> k + 1 < |w + u| && (w + u)[k + 1] == '\n'
    {
      if k < |w| {
        assert (w + u)[k] == w[k];
        if w[k] == '\r' {
          assert (w + u)[k + 1] == w[k + 1];
        }
      } else {
        assert (w + u)[k] == u[k - |w|];
        if u[k - |w|] == '\r' {
          assert (w + u)[k + 1] == u[k - |w| + 1];
        }
      }
    }
  }

  lemma UnitsExtend(s: string, b: nat, j: nat, n: nat)
    requires b <= j && j + n <= |s| && IsUnits(s[b..j]) && IsUnits(s[j..j + n])
    ensures IsUnits(s[b..j + n])
  {
    assert s[b..j + n] == s[b..j] + s[j..j + n];
    UnitsAppend(s[b..j], s[j..j + n]);
  }

  /** Reference definition of a match: `s[i..c+2]` is a match of the pattern
      starting at `i`. It opens with `{{`, holds at least one unit, and closes
      at the first `}}` after the first unit (the lazy `+?`). */
  ghost predicate IsPlaceholder(s: string, i: int, c: int)
  {
    0 <= i && i + 3 <= c && CloserAt(s, c) && s[i] == '{' && s[i + 1] == '{' &&
    IsUnits(s[i + 2..c]) &&
    forall m :: i + 3 <= m < c ==> !CloserAt(s, m)
  }

  /** The lazy body of the pattern, run from index `j`: `consumed` says whether
      at least one unit has been taken. Returns the index of the closing `}}`. */
  function CloseFrom(s: string, j: nat, consumed: bool): (r: Option<nat>)
    requires j <= |s|
    ensures r.Some? ==> CloserAt(s, r.value) && j <= r.value && (consumed || j < r.value)
    decreases |s| - j
  {
    if consumed && CloserAt(s, j) then Some(j)
    else if j < |s| && !IsLineTerminator(s[j]) then CloseFrom(s, j + 1, true)
    else if j < |s| && s[j] == '\n' then CloseFrom(s, j + 1, true)
    else if j + 2 <= |s| && s[j] == '\r' && s[j + 1] == '\n' then CloseFrom(s, j + 2, true)
    else None
  }

  /** The pattern tried at index `i`: the index of its closing `}}`, if any. */
  function MatchAt(s: string, i: nat): (r: Option<nat>)
    requires i <= |s|
    ensures r.Some? ==> i + 3 <= r.value && CloserAt(s, r.value)
  {
    if i + 2 <= |s| && s[i] == '{' && s[i + 1] == '{' then CloseFrom(s, i + 2, false) else None
  }

  /** The body of the pattern, begun at `b`, can end with the `}}` at `c`:
      it holds at least one unit and there is no earlier `}}` after its first
      character. */
  ghost predicate LazyBody(s: string, b: nat, c: nat)
  {
    b + 1 <= c && CloserAt(s, c) && IsUnits(s[b..c]) &&
    forall m :: b + 1 <= m < c ==> !CloserAt(s, m)
  }

  /** What the scanner has read so far, from `b` to `j`, is a run of units
      with no `}}` after its first character. */
  ghost predicate ScannedTo(s: string, b: nat, j: nat)
  {
    b <= j <= |s| && IsUnits(s[b..j]) &&
    forall m :: b + 1 <= m < j ==> !CloserAt(s, m)
  }

  lemma {:induction false} CloseFromIsLazy(s: string, b: nat, j: nat, c: nat)
    requires ScannedTo(s, b, j)
    ensures CloseFrom(s, j, j > b) == Some(c) <==> LazyBody(s, b, c)
    decreases |s| - j
  {
    if j > b && CloserAt(s, j) {
      LazyAtCloser(s, b, j, c);
    } else if j < |s| && (!IsLineTerminator(s[j]) || s[j] == '\n') {
      LazyAdvance(s, b, j, 1);
      CloseFromIsLazy(s, b, j + 1, c);
    } else if j + 2 <= |s| && s[j] == '\r' && s[j + 1] == '\n' {
      LazyAdvance(s, b, j, 2);
      CloseFromIsLazy(s, b, j + 2, c);
    } else {
      LazyStuck(s, b, j, c);
    }
  }

  /** At a `}}` after the first unit the scan stops, and that is the only end. */
  lemma LazyAtCloser(s: string, b: nat, j: nat, c: nat)
    requires ScannedTo(s, b, j) && j > b && CloserAt(s, j)
    ensures CloseFrom(s, j, true) == Some(j)
    ensures LazyBody(s, b, c) <==> c == j
  {
    if c > j {
      assert b + 1 <= j < c && CloserAt(s, j);
    }
  }

  /** Reading one unit (one character, or a CR LF pair) keeps the scan's
      invariant and does not change where it ends. */
  lemma LazyAdvance(s: string, b: nat, j: nat, n: nat)
    requires ScannedTo(s, b, j) && !(j > b && CloserAt(s, j))
    requires (n == 1 && j < |s| && (!IsLineTerminator(s[j]) || s[j] == '\n')) ||
             (n == 2 && j + 2 <= |s| && s[j] == '\r' && s[j + 1] == '\n')
    ensures ScannedTo(s, b, j + n)
    ensures CloseFrom(s, j, j > b) == CloseFrom(s, j + n, true)
  {
    if n == 1 {
      assert s[j..j + 1] == [s[j]];
    } else {
      assert s[j..j + 2] == [s[j], s[j + 1]];
    }
    UnitsExtend(s, b, j, n);
    forall m | b + 1 <= m < j + n
      ensures !CloserAt(s, m)
    {
      if m == j + 1 && n == 2 {
        assert s[m] == '\n';
      }
    }
  }

  /** Where no unit can be read the scan fails, and no later `}}` can end the
      body either, since the text up to it would not be made of units. */
  lemma LazyStuck(s: string, b: nat, j: nat, c: nat)
    requires ScannedTo(s, b, j) && !(j > b && CloserAt(s, j))
    requires !(j < |s| && (!IsLineTerminator(s[j]) || s[j] == '\n'))
    requires !(j + 2 <= |s| && s[j] == '\r' && s[j + 1] == '\n')
    ensures CloseFrom(s, j, j > b) == None
    ensures !LazyBody(s, b, c)
  {
    if j < c && c + 2 <= |s| {
      var w := s[b..c];
      assert w[j - b] == s[j];
      if s[j] == '\r' && j + 1 < c {
        assert w[j - b + 1] == s[j + 1];
      }
      assert !IsUnits(w);
    }
  }

  /** The scanner agrees with the reference definition of a match. */
  lemma MatchAtIsPlaceholder(s: string, i: nat, c: nat)
    requires i <= |s|
    ensures MatchAt(s, i) == Some(c) <==> IsPlaceholder(s, i, c)
  {
    if i + 2 <= |s| && s[i] == '{' && s[i + 1] == '{' {
      CloseFromIsLazy(s, i + 2, i + 2, c);
    }
  }

  /** A match found one character further on is a match of the suffix. */
  lemma PlaceholderShift(s: string, i: int, c: int)
    requires s != [] && 0 <= i
    ensures IsPlaceholder(s[1..], i, c) <==> IsPlaceholder(s, i + 1, c + 1)
  {
    var t := s[1..];
    if i + 3 <= c && c + 2 <= |t| {
      assert t[i + 2..c] == s[i + 3..c + 1];
      assert t[i] == s[i + 1] && t[i + 1] == s[i + 2];
      assert CloserAt(t, c) == CloserAt(s, c + 1);
      if IsPlaceholder(s, i + 1, c + 1) {
        forall m | i + 3 <= m < c
          ensures !CloserAt(t, m)
        {
          assert !CloserAt(s, m + 1);
        }
      }
      if IsPlaceholder(t, i, c) {
        forall m | i + 4 <= m < c + 1
          ensures !CloserAt(s, m)
        {
          assert !CloserAt(t, m - 1);
        }
      }
    }
  }

  // ---------------------------------------------------------------------------
  // The render pass
  // ---------------------------------------------------------------------------

  /** `template.replace(/\{\{((?:.|\r?\n)+?)\}\}/g, (_, val) => data[val.trim()])`:
      the leftmost match is replaced, and the scan resumes after it in the
      template (never in the substituted text); where no match starts, one
      character is copied and the scan moves on. */
  function Render(template: string, data: map<string, Value>): string
    decreases |template|
  {
    if template == [] then []
    else
      var m := MatchAt(template, 0);
      if m.Some? then Lookup(data, Trim(template[2..m.value])) + Render(template[m.value + 2..], data)
      else [template[0]] + Render(template[1..], data)
  }

  /** Unfolding `Render` at a placeholder that starts the template. */
  lemma RenderSome(template: string, data: map<string, Value>, c: nat)
    requires template != [] && MatchAt(template, 0) == Some(c)
    ensures Render(template, data) == Lookup(data, Trim(template[2..c])) + Render(template[c + 2..], data)
  {
    var m := MatchAt(template, 0);
    assert m.value == c;
  }

  /** Unfolding `Render` where no placeholder starts the template. */
  lemma RenderNone(template: string, data: map<string, Value>)
    requires template != [] && MatchAt(template, 0).None?
    ensures Render(template, data) == [template[0]] + Render(template[1..], data)
  {
  }

  /** No match of the pattern starts anywhere in `t`. */
  ghost predicate NoPlaceholder(t: string)
  {
    forall i, c :: !IsPlaceholder(t, i, c)
  }

  /** No match starts inside the first `n` characters of `t`. */
  ghost predicate NoPlaceholderBefore(t: string, n: int)
  {
    forall i, c :: 0 <= i < n ==> !IsPlaceholder(t, i, c)
  }

  lemma NoPlaceholderBeforeTail(t: string, n: int)
    requires t != [] && NoPlaceholderBefore(t, n)
    ensures NoPlaceholderBefore(t[1..], n - 1)
  {
    forall i, c | 0 <= i < n - 1
      ensures !IsPlaceholder(t[1..], i, c)
    {
      PlaceholderShift(t, i, c);
    }
  }

  lemma NoMatchAtStart(t: string, n: int)
    requires 0 < n && NoPlaceholderBefore(t, n)
    ensures MatchAt(t, 0) == None
  {
    if MatchAt(t, 0).Some? {
      MatchAtIsPlaceholder(t, 0, MatchAt(t, 0).value);
    }
  }

  /** Text in which no placeholder starts is copied to the output unchanged. */
  lemma {:induction false} RenderCopiesPrefix(a: string, rest: string, data: map<string, Value>)
    requires NoPlaceholderBefore(a + rest, |a|)
    ensures Render(a + rest, data) == a + Render(rest, data)
    decreases |a|
  {
    if a == [] {
      assert a + rest == rest;
    } else {
      var t := a + rest;
      NoPlaceholderBeforeTail(t, |a|);
      assert t[1..] == a[1..] + rest;
      RenderCopiesPrefix(a[1..], rest, data);
      NoMatchAtStart(t, |a|);
      RenderCopiesStep(t, a, rest, data);
    }
  }

  /** One step of copying: a character where no placeholder starts. */
  lemma RenderCopiesStep(t: string, a: string, rest: string, data: map<string, Value>)
    requires a != [] && t == a + rest && t[0] == a[0] && MatchAt(t, 0) == None
    requires Render(t[1..], data) == a[1..] + Render(rest, data)
    ensures Render(t, data) == a + Render(rest, data)
  {
    RenderNone(t, data);
    ConsAppend(a, Render(rest, data));
  }

  /** Splitting off the first character of a non-empty prefix. */
  lemma ConsAppend(a: string, r: string)
    requires a != []
    ensures [a[0]] + (a[1..] + r) == a + r
  {
    assert [a[0]] + a[1..] == a;
  }

  /** A template with no placeholder renders unchanged. */
  lemma RenderWithoutPlaceholder(t: string, data: map<string, Value>)
    requires NoPlaceholder(t)
    ensures Render(t, data) == t
  {
    assert t + [] == t;
    RenderCopiesPrefix(t, [], data);
  }

  /** Literal text in which no `{` is followed by another `{`, and which does
      not end with `{`: no `{{` can begin inside it, whatever follows. */
  predicate NoOpening(a: string)
  {
    forall i :: 0 <= i < |a| && a[i] == '{' ==> i + 1 < |a| && a[i + 1] != '{'
  }

  /** Such text cannot start a placeholder. */
  lemma LiteralHasNoPlaceholder(a: string, rest: string)
    requires NoOpening(a)
    ensures NoPlaceholderBefore(a + rest, |a|)
  {
    forall i, c | 0 <= i < |a|
      ensures !IsPlaceholder(a + rest, i, c)
    {
      assert (a + rest)[i] == a[i];
      if a[i] == '{' {
        assert (a + rest)[i + 1] == a[i + 1];
      }
    }
  }

  /** Inner text that closes exactly at its own end: at least one unit, and no
      `}}` after its first character before the closing one (so, when longer
      than one character, it does not end with `}`, which would pair with the
      closer). */
  predicate IsKeyText(k: string)
  {
    |k| > 0 && IsUnits(k) && forall m :: 1 <= m < |k| ==> !CloserAt(k + "}}", m)
  }

  /** Inside `{{k}}rest`, a `}}` at `m` in `k + "}}"` is a `}}` at `m + 2`. */
  lemma CloserInWrapped(k: string, rest: string, m: int)
    requires 1 <= m < |k|
    ensures CloserAt("{{" + k + "}}" + rest, m + 2) == CloserAt(k + "}}", m)
  {
    var t := "{{" + k + "}}" + rest;
    assert t == "{{" + (k + "}}") + rest;
    assert t[m + 2] == (k + "}}")[m];
    assert t[m + 3] == (k + "}}")[m + 1];
  }

  /** `IsKeyText` is exactly the condition for `{{k}}` to be one match of the
      pattern, ending at its own `}}`. */
  lemma KeyTextIsPlaceholder(k: string, rest: string)
    ensures IsKeyText(k) <==> IsPlaceholder("{{" + k + "}}" + rest, 0, |k| + 2)
  {
    var t := "{{" + k + "}}" + rest;
    var c := |k| + 2;
    assert t[2..c] == k;
    assert t[c] == '}' && t[c + 1] == '}';
    assert t[0] == '{' && t[1] == '{';
    if IsKeyText(k) {
      forall m | 3 <= m < c
        ensures !CloserAt(t, m)
      {
        CloserInWrapped(k, rest, m - 2);
      }
    }
    if IsPlaceholder(t, 0, c) {
      forall m | 1 <= m < |k|
        ensures !CloserAt(k + "}}", m)
      {
        CloserInWrapped(k, rest, m);
      }
    }
  }

  /** A placeholder is replaced by the value at its trimmed key, and the scan
      resumes right after it. */
  lemma RenderPlaceholder(k: string, rest: string, data: map<string, Value>)
    requires IsKeyText(k)
    ensures Render("{{" + k + "}}" + rest, data) == Lookup(data, Trim(k)) + Render(rest, data)
  {
    var t := "{{" + k + "}}" + rest;
    var c := |k| + 2;
    assert t[2..c] == k;
    assert t[c + 2..] == rest;
    KeyTextIsPlaceholder(k, rest);
    MatchAtIsPlaceholder(t, 0, c);
    RenderSome(t, data, c);
  }

  /** A match found at `i` in `t` is a match at 0 of the suffix from `i`. */
  lemma PlaceholderAtSuffix(t: string, i: nat, c: int)
    requires i <= |t|
    ensures IsPlaceholder(t[i..], 0, c - i) <==> IsPlaceholder(t, i, c)
  {
    var u := t[i..];
    if i + 3 <= c && c + 2 <= |t| {
      assert u[2..c - i] == t[i + 2..c];
      assert u[0] == t[i] && u[1] == t[i + 1];
      assert CloserAt(u, c - i) == CloserAt(t, c);
      if IsPlaceholder(t, i, c) {
        forall m | 3 <= m < c - i
          ensures !CloserAt(u, m)
        {
          assert !CloserAt(t, m + i);
        }
      }
      if IsPlaceholder(u, 0, c - i) {
        forall m | i + 3 <= m < c
          ensures !CloserAt(t, m)
        {
          assert !CloserAt(u, m - i);
        }
      }
    }
  }

  /** The render pass on any template: the text before the first match is
      copied, the first match is replaced by the value under its trimmed key,
      and the pass resumes right after its `}}`. With `RenderWithoutPlaceholder`
      this covers every template. */
  lemma RenderFirstPlaceholder(t: string, i: nat, c: nat, data: map<string, Value>)
    requires NoPlaceholderBefore(t, i) && IsPlaceholder(t, i, c)
    ensures Render(t, data) == t[..i] + Lookup(data, Trim(t[i + 2..c])) + Render(t[c + 2..], data)
  {
    RenderAfterPrefix(t, i, data);
    RenderSuffixAt(t, i, c, data);
    AppendAssoc(t[..i], Lookup(data, Trim(t[i + 2..c])), Render(t[c + 2..], data));
  }

  lemma AppendAssoc(a: string, b: string, r: string)
    ensures a + (b + r) == a + b + r
  {
  }

  /** The text before index `i`, where no match starts, is copied. */
  lemma RenderAfterPrefix(t: string, i: nat, data: map<string, Value>)
    requires i <= |t| && NoPlaceholderBefore(t, i)
    ensures Render(t, data) == t[..i] + Render(t[i..], data)
  {
    assert t[..i] + t[i..] == t;
    RenderCopiesPrefix(t[..i], t[i..], data);
  }

  /** The scanner, run on the suffix from a match, finds that match. */
  lemma MatchAtSuffix(t: string, i: nat, c: nat)
    requires IsPlaceholder(t, i, c)
    ensures c >= i && MatchAt(t[i..], 0) == Some(c - i)
  {
    PlaceholderAtSuffix(t, i, c);
    MatchAtIsPlaceholder(t[i..], 0, c - i);
  }

  /** The suffix of `t` from a match at `i` renders as that match's value
      followed by the rest. */
  lemma RenderSuffixAt(t: string, i: nat, c: nat, data: map<string, Value>)
    requires IsPlaceholder(t, i, c)
    ensures Render(t[i..], data) == Lookup(data, Trim(t[i + 2..c])) + Render(t[c + 2..], data)
  {
    var u := t[i..];
    MatchAtSuffix(t, i, c);
    RenderSome(u, data, c - i);
    assert u[2..c - i] == t[i + 2..c];
    assert u[c - i + 2..] == t[c + 2..];
  }

  /** A key absent from the data renders as the text `undefined`. */
  lemma RenderMissingKey(k: string, rest: string, data: map<string, Value>)
    requires IsKeyText(k) && Trim(k) !in data
    ensures Render("{{" + k + "}}" + rest, data) == Undefined + Render(rest, data)
  {
    RenderPlaceholder(k, rest, data);
  }

  /** Padding inside the braces does not change the output. */
  lemma RenderIgnoresPadding(a: string, k: string, b: string, rest: string, data: map<string, Value>)
    requires AllTrimmable(a) && AllTrimmable(b) && IsStripped(k)
    requires IsKeyText(a + k + b) && IsKeyText(k)
    ensures Render("{{" + (a + k + b) + "}}" + rest, data) == Render("{{" + k + "}}" + rest, data)
  {
    RenderPlaceholder(a + k + b, rest, data);
    RenderPlaceholder(k, rest, data);
    TrimPadded(a, k, b);
  }

  /** A template piece: literal text, or a placeholder with its inner text. */
  datatype Piece = Text(text: string) | Hole(inner: string)

  function Assemble(pieces: seq<Piece>): string
  {
    if pieces == [] then []
    else
      (match pieces[0]
       case Text(a) => a
       case Hole(k) => "{{" + k + "}}") + Assemble(pieces[1..])
  }

  /** Reference meaning of a template: each hole by the value at its trimmed key,
      each text as itself. */
  function Expand(pieces: seq<Piece>, data: map<string, Value>): string
  {
    if pieces == [] then []
    else
      (match pieces[0]
       case Text(a) => a
       case Hole(k) => Lookup(data, Trim(k))) + Expand(pieces[1..], data)
  }

  predicate WellFormed(p: Piece)
  {
    match p
    case Text(a) => NoOpening(a)
    case Hole(k) => IsKeyText(k)
  }

  /** Global, single-pass substitution: every placeholder of the template is
      replaced (not only the first), the rest is copied, and substituted
      values are never scanned again. */
  lemma {:induction false} RenderReplacesEveryPlaceholder(pieces: seq<Piece>, data: map<string, Value>)
    requires forall p :: p in pieces ==> WellFormed(p)
    ensures Render(Assemble(pieces), data) == Expand(pieces, data)
  {
    if pieces != [] {
      RenderReplacesEveryPlaceholder(pieces[1..], data);
      var tail := Assemble(pieces[1..]);
      assert pieces[0] in pieces;
      match pieces[0]
      case Text(a) =>
        LiteralHasNoPlaceholder(a, tail);
        RenderCopiesPrefix(a, tail, data);
      case Hole(k) =>
        RenderPlaceholder(k, tail, data);
    }
  }

  /** The keys the render pass looks up in the data. */
  ghost function KeysOf(template: string): set<string>
    decreases |template|
  {
    if template == [] then {}
    else match MatchAt(template, 0)
      case Some(c) => {Trim(template[2..c])} + KeysOf(template[c + 2..])
      case None => KeysOf(template[1..])
  }

  /** Unfolding `KeysOf` at a placeholder that starts the template. */
  lemma KeysSome(template: string, c: nat)
    requires template != [] && MatchAt(template, 0) == Some(c)
    ensures KeysOf(template) == {Trim(template[2..c])} + KeysOf(template[c + 2..])
  {
  }

  /** Unfolding `KeysOf` where no placeholder starts the template. */
  lemma KeysNone(template: string)
    requires template != [] && MatchAt(template, 0).None?
    ensures KeysOf(template) == KeysOf(template[1..])
  {
  }

  /** `d1` and `d2` render every key of `ks` the same way. */
  ghost predicate AgreeOn(d1: map<string, Value>, d2: map<string, Value>, ks: set<string>)
  {
    forall k :: k in ks ==> Lookup(d1, k) == Lookup(d2, k)
  }

  /** The output depends on the data only through the keys the template names. */
  lemma {:induction false} RenderDependsOnlyOnKeys(template: string, d1: map<string, Value>, d2: map<string, Value>)
    requires AgreeOn(d1, d2, KeysOf(template))
    ensures Render(template, d1) == Render(template, d2)
    decreases |template|
  {
    if template != [] {
      match MatchAt(template, 0)
      case Some(c) =>
        KeysSome(template, c);
        RenderDependsOnlyOnKeys(template[c + 2..], d1, d2);
        RenderSome(template, d1, c);
        RenderSome(template, d2, c);
      case None =>
        KeysNone(template);
        RenderDependsOnlyOnKeys(template[1..], d1, d2);
        RenderNone(template, d1);
        RenderNone(template, d2);
    }
  }
}
