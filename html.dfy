/** How the sign-in form carries `login_request_id` and `state` through the
    browser: each is written into a hidden input `value="..."`, and when the
    form is submitted the browser sends the attribute value it parsed.
    The browser model follows the HTML Living Standard where it touches these
    values: the parser's preprocessing of the input stream (line breaks become
    LF), the double-quoted attribute value state (it ends at the next `"`, and
    U+0000 becomes U+FFFD), character references, and the line-break
    normalization of form submission (every line break becomes CR LF). */
module Html {
  import opened Js

  /** The markup of a hidden input up to the opening quote of its value. */
  function HiddenPrefix(name: string): string {
    "<input type=\"hidden\" name=\"" + name + "\" value=\""
  }

  const HiddenSuffix: string := "\" />"

  /** The hidden input as the sign-in page writes it: the value is interpolated
      into the double-quoted attribute without escaping. */
  function HiddenInputAsWritten(name: string, value: string): string {
    HiddenPrefix(name) + value + HiddenSuffix
  }

  /** The five characters that are significant in HTML text and attribute values
      become character references. */
  function EscapeChar(c: char): string {
    if c == '&' then "&amp;"
    else if c == '"' then "&quot;"
    else if c == '\'' then "&#39;"
    else if c == '<' then "&lt;"
    else if c == '>' then "&gt;"
    else [c]
  }

  function Escape(s: string): string {
    if s == [] then [] else EscapeChar(s[0]) + Escape(s[1..])
  }

  /** The hidden input with its value escaped. */
  function HiddenInput(name: string, value: string): string {
    HiddenPrefix(name) + Escape(value) + HiddenSuffix
  }

  // ------------------------------------------------------------ the browser

  /** Preprocessing of the parser's input stream: every CR LF pair and every
      lone CR becomes LF. */
  function NormalizeNewlines(s: string): string
    decreases |s|
  {
    if s == [] then []
    else if s[0] == '\r' && 2 <= |s| && s[1] == '\n' then "\n" + NormalizeNewlines(s[2..])
    else if s[0] == '\r' then "\n" + NormalizeNewlines(s[1..])
    else [s[0]] + NormalizeNewlines(s[1..])
  }

  /** In an attribute value the tokenizer replaces U+0000 by U+FFFD. */
  function ReplaceNul(s: string): (r: string)
    ensures |r| == |s|
  {
    seq(|s|, i requires 0 <= i < |s| => if s[i] == '\0' then '\U{FFFD}' else s[i])
  }

  /** Line-break normalization of form submission: every CR LF pair, lone CR
      and lone LF becomes CR LF. */
  function CrlfNewlines(s: string): string
    decreases |s|
  {
    if s == [] then []
    else if s[0] == '\r' && 2 <= |s| && s[1] == '\n' then "\r\n" + CrlfNewlines(s[2..])
    else if s[0] == '\r' then "\r\n" + CrlfNewlines(s[1..])
    else if s[0] == '\n' then "\r\n" + CrlfNewlines(s[1..])
    else [s[0]] + CrlfNewlines(s[1..])
  }

  /** What the server receives for a field whose value the page meant to be
      `value`: its line breaks as CR LF and its U+0000 as U+FFFD. */
  function FormValue(value: string): string {
    CrlfNewlines(ReplaceNul(value))
  }

  /** Replaces the character references `Escape` produces by their characters;
      any other `&` stands for itself. */
  function Unescape(t: string): string
    decreases |t|
  {
    if t == [] then []
    else if t[0] == '&' && "&amp;" <= t then "&" + Unescape(t[5..])
    else if t[0] == '&' && "&quot;" <= t then "\"" + Unescape(t[6..])
    else if t[0] == '&' && "&#39;" <= t then "'" + Unescape(t[5..])
    else if t[0] == '&' && "&lt;" <= t then "<" + Unescape(t[4..])
    else if t[0] == '&' && "&gt;" <= t then ">" + Unescape(t[4..])
    else [t[0]] + Unescape(t[1..])
  }

  /** The text of `t` before its first double quote. */
  function UpToQuote(t: string): (u: string)
    ensures u <= t && '"' !in u
    ensures |u| < |t| ==> t[|u|] == '"'
  {
    if t == [] || t[0] == '"' then [] else [t[0]] + UpToQuote(t[1..])
  }

  /** The value a browser submits for the hidden input `name` written as `markup`:
      after the input stream is preprocessed, a double-quoted attribute value
      ends at the next `"`, its U+0000 become U+FFFD and its character
      references are decoded; submission then writes its line breaks as CR LF. */
  function SubmittedValue(name: string, markup: string): Option<string> {
    var m := NormalizeNewlines(markup);
    if HiddenPrefix(name) <= m then
      Some(CrlfNewlines(Unescape(ReplaceNul(UpToQuote(m[|HiddenPrefix(name)|..])))))
    else None
  }

  // ------------------------------------------------- the browser: properties

  lemma NormalizeNewlinesStep(s: string)
    requires s != []
    ensures s[0] == '\r' && 2 <= |s| && s[1] == '\n' ==> NormalizeNewlines(s) == "\n" + NormalizeNewlines(s[2..])
    ensures s[0] == '\r' && !(2 <= |s| && s[1] == '\n') ==> NormalizeNewlines(s) == "\n" + NormalizeNewlines(s[1..])
    ensures s[0] != '\r' ==> NormalizeNewlines(s) == [s[0]] + NormalizeNewlines(s[1..])
  {
  }

  lemma NormalizeCrLf(s: string)
    requires 2 <= |s| && s[0] == '\r' && s[1] == '\n'
    ensures NormalizeNewlines(s) == "\n" + NormalizeNewlines(s[2..])
  {
  }

  lemma NormalizeOne(s: string)
    requires s != [] && !(s[0] == '\r' && 2 <= |s| && s[1] == '\n')
    ensures NormalizeNewlines(s) == [if s[0] == '\r' then '\n' else s[0]] + NormalizeNewlines(s[1..])
  {
  }

  /** The first `k` characters of `a + b` are those of `a`, and the rest is
      what follows them in `a`, then `b`. */
  lemma DropAppend(a: string, b: string, k: nat)
    requires k <= |a|
    ensures forall i :: 0 <= i < k ==> (a + b)[i] == a[i]
    ensures (a + b)[k..] == a[k..] + b
  {
  }

  lemma {:induction false} NormalizeNewlinesAppend(a: string, b: string)
    requires b == [] || b[0] != '\n'
    ensures NormalizeNewlines(a + b) == NormalizeNewlines(a) + NormalizeNewlines(b)
    decreases |a|
  {
    if a == [] {
      assert a + b == b;
    } else if a[0] == '\r' && 2 <= |a| && a[1] == '\n' {
      NormalizeNewlinesAppend(a[2..], b);
      AppendCrLf(a, b);
    } else if a[0] == '\r' && |a| == 1 {
      AppendLoneCr(a, b);
    } else {
      NormalizeNewlinesAppend(a[1..], b);
      AppendOne(a, b);
    }
  }

  /** A step of `NormalizeNewlinesAppend` over a leading CR LF. */
  lemma AppendCrLf(a: string, b: string)
    requires 2 <= |a| && a[0] == '\r' && a[1] == '\n'
    requires NormalizeNewlines(a[2..] + b) == NormalizeNewlines(a[2..]) + NormalizeNewlines(b)
    ensures NormalizeNewlines(a + b) == NormalizeNewlines(a) + NormalizeNewlines(b)
  {
    var x, y := NormalizeNewlines(a[2..]), NormalizeNewlines(b);
    assert (a + b)[0] == '\r' && (a + b)[1] == '\n' && (a + b)[2..] == a[2..] + b;
    calc {
      NormalizeNewlines(a + b);
      == { NormalizeCrLf(a + b); }
      "\n" + NormalizeNewlines(a[2..] + b);
      ==
      "\n" + (x + y);
      == { Assoc("\n", x, y); }
      ("\n" + x) + y;
      == { NormalizeCrLf(a); }
      NormalizeNewlines(a) + y;
    }
  }

  /** A step of `NormalizeNewlinesAppend` over a leading character that is not
      the start of a CR LF pair and not a CR ending `a`. */
  lemma AppendOne(a: string, b: string)
    requires 2 <= |a| || (|a| == 1 && a[0] != '\r')
    requires !(a[0] == '\r' && a[1] == '\n')
    requires NormalizeNewlines(a[1..] + b) == NormalizeNewlines(a[1..]) + NormalizeNewlines(b)
    ensures NormalizeNewlines(a + b) == NormalizeNewlines(a) + NormalizeNewlines(b)
  {
    var c := [if a[0] == '\r' then '\n' else a[0]];
    var x, y := NormalizeNewlines(a[1..]), NormalizeNewlines(b);
    assert (a + b)[0] == a[0] && (a + b)[1..] == a[1..] + b;
    assert 2 <= |a| ==> (a + b)[1] == a[1];
    calc {
      NormalizeNewlines(a + b);
      == { NormalizeOne(a + b); }
      c + NormalizeNewlines(a[1..] + b);
      ==
      c + (x + y);
      == { Assoc(c, x, y); }
      (c + x) + y;
      == { NormalizeOne(a); }
      NormalizeNewlines(a) + y;
    }
  }

  lemma Assoc(c: string, x: string, y: string)
    ensures c + (x + y) == (c + x) + y
  {
  }

  lemma AppendLoneCr(a: string, b: string)
    requires a == "\r" && (b == [] || b[0] != '\n')
    ensures NormalizeNewlines(a + b) == NormalizeNewlines(a) + NormalizeNewlines(b)
  {
    DropAppend(a, b, 1);
    NormalizeNewlinesStep(a);
    NormalizeNewlinesStep(a + b);
  }

  lemma {:induction false} NormalizeNewlinesPlainPrefix(p: string, x: string)
    requires '\r' !in p
    ensures NormalizeNewlines(p + x) == p + NormalizeNewlines(x)
  {
    if p != [] {
      assert p[0] in p && forall c :: c in p[1..] ==> c in p;
      NormalizeNewlinesPlainPrefix(p[1..], x);
      assert (p + x)[0] == p[0] && (p + x)[1..] == p[1..] + x;
      assert NormalizeNewlines(p + x) == [p[0]] + NormalizeNewlines(p[1..] + x);
      assert [p[0]] + (p[1..] + NormalizeNewlines(x)) == p + NormalizeNewlines(x);
    } else {
      assert p + x == x;
    }
  }

  lemma {:induction false} NormalizeNewlinesPlain(s: string)
    requires '\r' !in s
    ensures NormalizeNewlines(s) == s
  {
    if s != [] {
      NormalizeNewlinesPlain(s[1..]);
      assert [s[0]] + s[1..] == s;
    }
  }

  /** Preprocessing adds no character but LF. */
  lemma {:induction false} NormalizeNewlinesChars(s: string)
    ensures forall c :: c in NormalizeNewlines(s) ==> c in s || c == '\n'
  {
    if s != [] {
      var rest := if 2 <= |s| && s[1] == '\n' then s[2..] else s[1..];
      if s[0] == '\r' {
        NormalizeNewlinesChars(rest);
        assert forall c :: c in rest ==> c in s;
      } else {
        NormalizeNewlinesChars(s[1..]);
      }
    }
  }

  lemma EscapeCons(c: char, s: string)
    ensures Escape([c] + s) == EscapeChar(c) + Escape(s)
  {
    assert ([c] + s)[0] == c && ([c] + s)[1..] == s;
  }

  /** The line breaks of an escaped text are those of the text. */
  lemma {:induction false} NormalizeNewlinesEscape(v: string)
    ensures NormalizeNewlines(Escape(v)) == Escape(NormalizeNewlines(v))
    decreases |v|
  {
    if v == [] {
    } else if v[0] == '\r' && 2 <= |v| && v[1] == '\n' {
      NormalizeNewlinesEscape(v[2..]);
      EscapeCrLf(v);
    } else if v[0] == '\r' {
      NormalizeNewlinesEscape(v[1..]);
      EscapeLoneCr(v);
    } else {
      NormalizeNewlinesEscape(v[1..]);
      EscapeOther(v);
    }
  }

  lemma EscapeCrLfPrefix(v: string)
    requires 2 <= |v| && v[0] == '\r' && v[1] == '\n'
    ensures Escape(v) == "\r\n" + Escape(v[2..])
  {
    EscapeUnfold(v);
    EscapeUnfold(v[1..]);
    assert v[1..][1..] == v[2..];
    EscapeCharPlain(v[0]);
    EscapeCharPlain(v[1]);
  }

  lemma EscapeCrLf(v: string)
    requires 2 <= |v| && v[0] == '\r' && v[1] == '\n'
    requires NormalizeNewlines(Escape(v[2..])) == Escape(NormalizeNewlines(v[2..]))
    ensures NormalizeNewlines(Escape(v)) == Escape(NormalizeNewlines(v))
  {
    var t := "\r\n" + Escape(v[2..]);
    assert t[0] == '\r' && t[1] == '\n' && t[2..] == Escape(v[2..]);
    calc {
      NormalizeNewlines(Escape(v));
      == { EscapeCrLfPrefix(v); }
      NormalizeNewlines(t);
      == { NormalizeCrLf(t); }
      "\n" + NormalizeNewlines(Escape(v[2..]));
      "\n" + Escape(NormalizeNewlines(v[2..]));
      == { EscapeCharPlain('\n'); EscapeCons('\n', NormalizeNewlines(v[2..])); }
      Escape("\n" + NormalizeNewlines(v[2..]));
      == { NormalizeCrLf(v); }
      Escape(NormalizeNewlines(v));
    }
  }

  lemma EscapeCharNoCr(c: char)
    requires c != '\r'
    ensures '\r' !in EscapeChar(c)
  {
    if c == '&' {
      assert EscapeChar(c) == "&amp;";
    } else if c == '"' {
      assert EscapeChar(c) == "&quot;";
    } else if c == '\'' {
      assert EscapeChar(c) == "&#39;";
    } else if c == '<' {
      assert EscapeChar(c) == "&lt;";
    } else if c == '>' {
      assert EscapeChar(c) == "&gt;";
    } else {
      assert EscapeChar(c) == [c];
    }
  }

  lemma EscapeOther(v: string)
    requires v != [] && v[0] != '\r'
    requires NormalizeNewlines(Escape(v[1..])) == Escape(NormalizeNewlines(v[1..]))
    ensures NormalizeNewlines(Escape(v)) == Escape(NormalizeNewlines(v))
  {
    var e := EscapeChar(v[0]);
    calc {
      NormalizeNewlines(Escape(v));
      == { EscapeUnfold(v); }
      NormalizeNewlines(e + Escape(v[1..]));
      == { EscapeCharNoCr(v[0]); NormalizeNewlinesPlainPrefix(e, Escape(v[1..])); }
      e + Escape(NormalizeNewlines(v[1..]));
      == { EscapeCons(v[0], NormalizeNewlines(v[1..])); }
      Escape([v[0]] + NormalizeNewlines(v[1..]));
      == { NormalizeOne(v); }
      Escape(NormalizeNewlines(v));
    }
  }

  lemma EscapeLoneCr(v: string)
    requires v != [] && v[0] == '\r' && !(2 <= |v| && v[1] == '\n')
    requires NormalizeNewlines(Escape(v[1..])) == Escape(NormalizeNewlines(v[1..]))
    ensures NormalizeNewlines(Escape(v)) == Escape(NormalizeNewlines(v))
  {
    var x := Escape(v[1..]);
    var t := "\r" + x;
    assert Escape(v) == t by {
      EscapeUnfold(v);
      EscapeCharPlain(v[0]);
    }
    assert x == [] || x[0] != '\n' by {
      if 2 <= |v| {
        EscapeHead(v[1..]);
      }
    }
    assert t[0] == '\r' && t[1..] == x && (2 <= |t| ==> t[1] == x[0]);
    calc {
      NormalizeNewlines(t);
      == { NormalizeOne(t); }
      "\n" + NormalizeNewlines(x);
      == { EscapeCons('\n', NormalizeNewlines(v[1..])); }
      Escape("\n" + NormalizeNewlines(v[1..]));
      == { NormalizeOne(v); }
      Escape(NormalizeNewlines(v));
    }
  }

  lemma EscapeUnfold(v: string)
    requires v != []
    ensures Escape(v) == EscapeChar(v[0]) + Escape(v[1..])
  {
  }

  lemma EscapeCharPlain(c: char)
    requires c != '&' && c != '"' && c != '\'' && c != '<' && c != '>'
    ensures EscapeChar(c) == [c]
  {
  }

  /** An escaped text starts with `&` or with the text's own first character. */
  lemma EscapeHead(s: string)
    requires s != []
    ensures Escape(s) != [] && (Escape(s)[0] == '&' || Escape(s)[0] == s[0])
  {
    assert Escape(s) == EscapeChar(s[0]) + Escape(s[1..]);
  }

  lemma ReplaceNulAppend(a: string, b: string)
    ensures ReplaceNul(a + b) == ReplaceNul(a) + ReplaceNul(b)
  {
  }

  lemma ReplaceNulCons(s: string)
    requires s != []
    ensures ReplaceNul(s) == [if s[0] == '\0' then '\U{FFFD}' else s[0]] + ReplaceNul(s[1..])
  {
  }

  lemma ReplaceNulEscapeChar(c: char)
    ensures ReplaceNul(EscapeChar(c)) == EscapeChar(if c == '\0' then '\U{FFFD}' else c)
  {
    if c in "&\"'<>" {
      ReplaceNulPlain(EscapeChar(c));
    } else {
      assert EscapeChar(c) == [c];
      if c != '\0' {
        assert EscapeChar(c) == [c];
      }
    }
  }

  lemma {:induction false} ReplaceNulEscape(w: string)
    ensures ReplaceNul(Escape(w)) == Escape(ReplaceNul(w))
  {
    if w != [] {
      ReplaceNulAppend(EscapeChar(w[0]), Escape(w[1..]));
      ReplaceNulEscape(w[1..]);
      ReplaceNulEscapeChar(w[0]);
      ReplaceNulCons(w);
      EscapeCons(if w[0] == '\0' then '\U{FFFD}' else w[0], ReplaceNul(w[1..]));
    }
  }

  /** NUL replacement and newline preprocessing act on different characters. */
  lemma {:induction false} ReplaceNulNormalizeNewlines(s: string)
    ensures ReplaceNul(NormalizeNewlines(s)) == NormalizeNewlines(ReplaceNul(s))
    decreases |s|
  {
    if s != [] {
      var r := ReplaceNul(s);
      NormalizeNewlinesStep(s);
      NormalizeNewlinesStep(r);
      assert r[1..] == ReplaceNul(s[1..]);
      if s[0] == '\r' && 2 <= |s| && s[1] == '\n' {
        assert r[2..] == ReplaceNul(s[2..]);
        ReplaceNulNormalizeNewlines(s[2..]);
        ReplaceNulAppend("\n", NormalizeNewlines(s[2..]));
      } else if s[0] == '\r' {
        ReplaceNulNormalizeNewlines(s[1..]);
        ReplaceNulAppend("\n", NormalizeNewlines(s[1..]));
      } else {
        ReplaceNulNormalizeNewlines(s[1..]);
        ReplaceNulAppend([s[0]], NormalizeNewlines(s[1..]));
      }
    }
  }

  /** The submission's normalization absorbs the parser's: preprocessing
      leaves no trace in what is submitted. */
  lemma {:induction false} CrlfNewlinesAbsorbs(s: string)
    ensures CrlfNewlines(NormalizeNewlines(s)) == CrlfNewlines(s)
    decreases |s|
  {
    if s != [] {
      var rest := if s[0] == '\r' && 2 <= |s| && s[1] == '\n' then s[2..] else s[1..];
      CrlfNewlinesAbsorbs(rest);
      var n := NormalizeNewlines(rest);
      if s[0] == '\r' || s[0] == '\n' {
        assert NormalizeNewlines(s) == "\n" + n;
        assert ("\n" + n)[1..] == n;
      } else {
        assert NormalizeNewlines(s) == [s[0]] + n;
        assert ([s[0]] + n)[1..] == n;
      }
    }
  }

  lemma ReplaceNulChars(s: string)
    ensures forall c :: c in ReplaceNul(s) ==> c in s || c == '\U{FFFD}'
  {
    forall c | c in ReplaceNul(s) ensures c in s || c == '\U{FFFD}' {
      var i :| 0 <= i < |s| && ReplaceNul(s)[i] == c;
      assert s[i] in s;
    }
  }

  lemma ReplaceNulPlain(s: string)
    requires '\0' !in s
    ensures ReplaceNul(s) == s
  {
    assert forall i :: 0 <= i < |s| ==> s[i] in s;
  }

  lemma {:induction false} CrlfNewlinesPlain(s: string)
    requires '\r' !in s && '\n' !in s
    ensures CrlfNewlines(s) == s
  {
    if s != [] {
      CrlfNewlinesPlain(s[1..]);
      assert [s[0]] + s[1..] == s;
    }
  }

  predicate NoLineBreakOrNul(s: string) {
    '\r' !in s && '\n' !in s && '\0' !in s
  }

  /** A value without line breaks and without U+0000 reaches the server as it is. */
  lemma FormValuePlain(value: string)
    requires NoLineBreakOrNul(value)
    ensures FormValue(value) == value
  {
    ReplaceNulPlain(value);
    CrlfNewlinesPlain(value);
  }

  /** A non-empty value is submitted non-empty. */
  lemma FormValueNonEmpty(value: string)
    requires value != ""
    ensures FormValue(value) != ""
  {
  }

  // ----------------------------------------------------- the hidden inputs

  lemma {:induction false} UnescapeEscapeChar(c: char, rest: string)
    ensures Unescape(EscapeChar(c) + rest) == [c] + Unescape(rest)
  {
    var t := EscapeChar(c) + rest;
    if c == '&' {
      assert "&amp;" <= t && t[5..] == rest;
    } else if c == '"' {
      assert t[1] == 'q' && "&amp;"[1] == 'a';
      assert "&quot;" <= t && t[6..] == rest;
    } else if c == '\'' {
      assert t[1] == '#' && "&amp;"[1] == 'a' && "&quot;"[1] == 'q';
      assert "&#39;" <= t && t[5..] == rest;
    } else if c == '<' {
      assert t[1] == 'l' && "&amp;"[1] == 'a' && "&quot;"[1] == 'q' && "&#39;"[1] == '#';
      assert "&lt;" <= t && t[4..] == rest;
    } else if c == '>' {
      assert t[1] == 'g' && "&amp;"[1] == 'a' && "&quot;"[1] == 'q' && "&#39;"[1] == '#' && "&lt;"[1] == 'l';
      assert "&gt;" <= t && t[4..] == rest;
    } else {
      assert t[0] == c && t[1..] == rest;
    }
  }

  /** Unescaping undoes escaping. */
  lemma {:induction false} UnescapeEscape(s: string)
    ensures Unescape(Escape(s)) == s
  {
    if s != [] {
      UnescapeEscape(s[1..]);
      UnescapeEscapeChar(s[0], Escape(s[1..]));
      assert [s[0]] + s[1..] == s;
    }
  }

  /** Escaped text never holds a double quote, so it cannot end the attribute early. */
  lemma {:induction false} EscapeHasNoQuote(s: string)
    ensures '"' !in Escape(s)
  {
    if s != [] {
      EscapeHasNoQuote(s[1..]);
      assert Escape(s) == EscapeChar(s[0]) + Escape(s[1..]);
    }
  }

  lemma UpToQuoteWhole(t: string)
    requires '"' !in t
    ensures UpToQuote(t) == t
  {
  }

  lemma {:induction false} UpToQuoteStops(u: string, rest: string)
    requires '"' !in u
    ensures UpToQuote(u + "\"" + rest) == u
  {
    if u != [] {
      UpToQuoteStops(u[1..], rest);
      assert (u + "\"" + rest)[1..] == u[1..] + "\"" + rest;
    }
  }

  lemma HiddenValueAt(name: string, v: string)
    ensures (HiddenPrefix(name) + v + HiddenSuffix)[|HiddenPrefix(name)|..] == v + "\"" + " />"
  {
    assert HiddenPrefix(name) + v + HiddenSuffix == HiddenPrefix(name) + (v + "\"" + " />");
  }

  /** Preprocessing a hidden input whose name has no CR preprocesses its value
      and nothing else. */
  lemma NormalizeHiddenInput(name: string, v: string)
    requires '\r' !in name
    ensures NormalizeNewlines(HiddenPrefix(name) + v + HiddenSuffix) ==
            HiddenPrefix(name) + NormalizeNewlines(v) + HiddenSuffix
  {
    var p := HiddenPrefix(name);
    PrefixHasNoCr(name);
    calc {
      NormalizeNewlines(p + v + HiddenSuffix);
      == { assert p + v + HiddenSuffix == p + (v + HiddenSuffix); }
      NormalizeNewlines(p + (v + HiddenSuffix));
      == { NormalizeNewlinesPlainPrefix(p, v + HiddenSuffix); }
      p + NormalizeNewlines(v + HiddenSuffix);
      == { NormalizeNewlinesAppend(v, HiddenSuffix); NormalizeNewlinesPlain(HiddenSuffix); }
      p + (NormalizeNewlines(v) + HiddenSuffix);
      == { Assoc(p, NormalizeNewlines(v), HiddenSuffix); }
      p + NormalizeNewlines(v) + HiddenSuffix;
    }
  }

  lemma PrefixHasNoCr(name: string)
    requires '\r' !in name
    ensures '\r' !in HiddenPrefix(name)
  {
  }

  /** With escaping, the browser submits the value the page was given, with
      only the normalization every form field undergoes. */
  lemma HiddenInputRoundTrip(name: string, value: string)
    requires '\r' !in name
    ensures SubmittedValue(name, HiddenInput(name, value)) == Some(FormValue(value))
  {
    var n := NormalizeNewlines(value);
    NormalizeHiddenInput(name, Escape(value));
    NormalizeNewlinesEscape(value);
    HiddenValueAt(name, Escape(n));
    EscapeHasNoQuote(n);
    UpToQuoteStops(Escape(n), " />");
    ReplaceNulEscape(n);
    UnescapeEscape(ReplaceNul(n));
    ReplaceNulNormalizeNewlines(value);
    CrlfNewlinesAbsorbs(ReplaceNul(value));
  }

  lemma {:induction false} UnescapePlain(s: string)
    requires '&' !in s
    ensures Unescape(s) == s
  {
    if s != [] {
      UnescapePlain(s[1..]);
      assert [s[0]] + s[1..] == s;
    }
  }

  /** As written, the echo holds for values with neither `"` nor `&` (the
      characters that end the attribute or start a character reference). */
  lemma HiddenInputAsWrittenPlain(name: string, value: string)
    requires '\r' !in name
    requires '"' !in value && '&' !in value
    ensures SubmittedValue(name, HiddenInputAsWritten(name, value)) == Some(FormValue(value))
  {
    var n := NormalizeNewlines(value);
    NormalizeHiddenInput(name, value);
    NormalizeNewlinesChars(value);
    HiddenValueAt(name, n);
    UpToQuoteStops(n, " />");
    ReplaceNulChars(n);
    UnescapePlain(ReplaceNul(n));
    ReplaceNulNormalizeNewlines(value);
    CrlfNewlinesAbsorbs(ReplaceNul(value));
  }

  /** As written, the attribute value read back from the input is the part of
      the value before its first `"`. The markup after that quote is not read
      here; see the README on what it can do in a browser. */
  lemma HiddenInputAsWrittenCut(name: string, value: string)
    requires '\r' !in name
    ensures SubmittedValue(name, HiddenInputAsWritten(name, value)) ==
            SubmittedValue(name, HiddenInputAsWritten(name, UpToQuote(value)))
  {
    var u := UpToQuote(value);
    if |u| < |value| {
      var w := value[|u| + 1..];
      assert value == u + ("\"" + w);
      CutAtQuote(name, u, w);
    } else {
      assert u == value;
    }
  }

  lemma CutAtQuote(name: string, u: string, w: string)
    requires '\r' !in name && '"' !in u
    ensures SubmittedValue(name, HiddenInputAsWritten(name, u + ("\"" + w))) ==
            SubmittedValue(name, HiddenInputAsWritten(name, u))
  {
    var n := NormalizeNewlines(u);
    NormalizeNewlinesChars(u);
    assert NormalizeNewlines(u + ("\"" + w)) == n + "\"" + NormalizeNewlines(w) by {
      NormalizeNewlinesAppend(u, "\"" + w);
      NormalizeQuoteCons(w);
    }
    SubmittedAsWritten(name, u + ("\"" + w), n, NormalizeNewlines(w));
    SubmittedAsWrittenQuoteFree(name, u);
  }

  /** The value submitted for a raw value that preprocesses to `n`, a text
      without `"`, then a quote and `rest`. */
  lemma SubmittedAsWritten(name: string, v: string, n: string, rest: string)
    requires '\r' !in name && '"' !in n
    requires NormalizeNewlines(v) == n + "\"" + rest
    ensures SubmittedValue(name, HiddenInputAsWritten(name, v)) == Some(CrlfNewlines(Unescape(ReplaceNul(n))))
  {
    NormalizeHiddenInput(name, v);
    assert NormalizeNewlines(HiddenInputAsWritten(name, v)) == HiddenPrefix(name) + (n + "\"" + (rest + HiddenSuffix));
    SubmittedOf(name, HiddenInputAsWritten(name, v), n, rest + HiddenSuffix);
  }

  lemma SubmittedAsWrittenQuoteFree(name: string, u: string)
    requires '\r' !in name && '"' !in NormalizeNewlines(u)
    ensures SubmittedValue(name, HiddenInputAsWritten(name, u)) ==
            Some(CrlfNewlines(Unescape(ReplaceNul(NormalizeNewlines(u)))))
  {
    var n := NormalizeNewlines(u);
    assert NormalizeNewlines(HiddenInputAsWritten(name, u)) == HiddenPrefix(name) + (n + "\"" + " />") by {
      NormalizeHiddenInput(name, u);
      assert HiddenPrefix(name) + n + HiddenSuffix == HiddenPrefix(name) + (n + "\"" + " />");
    }
    SubmittedOf(name, HiddenInputAsWritten(name, u), n, " />");
  }

  /** The value submitted for markup that, once preprocessed, holds the hidden
      input's opening followed by `n`, a text without `"`, and a quote. */
  lemma SubmittedOf(name: string, markup: string, n: string, rest: string)
    requires '"' !in n
    requires NormalizeNewlines(markup) == HiddenPrefix(name) + (n + "\"" + rest)
    ensures SubmittedValue(name, markup) == Some(CrlfNewlines(Unescape(ReplaceNul(n))))
  {
    AttributeValueAt(name, n, rest);
  }

  lemma NormalizeQuoteCons(w: string)
    ensures NormalizeNewlines("\"" + w) == "\"" + NormalizeNewlines(w)
  {
    assert ("\"" + w)[0] == '"' && ("\"" + w)[1..] == w;
  }

  /** The attribute value read from a hidden input written with `n`, a text
      without `"`, followed by a quote and anything else, is `n`. */
  lemma AttributeValueAt(name: string, n: string, rest: string)
    requires '"' !in n
    ensures var m := HiddenPrefix(name) + (n + "\"" + rest);
            HiddenPrefix(name) <= m && UpToQuote(m[|HiddenPrefix(name)|..]) == n
  {
    var m := HiddenPrefix(name) + (n + "\"" + rest);
    assert m[|HiddenPrefix(name)|..] == n + "\"" + rest;
    UpToQuoteStops(n, rest);
  }

  /** As written, the page given `state` = `a"b` makes the browser submit `a`. */
  lemma HiddenInputAsWrittenTruncates()
    ensures SubmittedValue("state", HiddenInputAsWritten("state", "a\"b")) == Some("a")
  {
    assert "a\"b" == "a" + "\"" + "b";
    UpToQuoteStops("a", "b");
    HiddenInputAsWrittenCut("state", "a\"b");
    HiddenInputAsWrittenPlain("state", "a");
    FormValuePlain("a");
  }
}
