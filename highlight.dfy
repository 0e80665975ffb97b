/**
 * Highlighting: every submatch the pattern finds in a string is wrapped, at
 * all of its occurrences, in a terminal colour code. The i-th submatch
 * (counting from 0) gets colour 31 + i. The passes run one after the other
 * over the already rewritten string.
 */
module Highlight {
  import opened Regex
  import opened GoStrings

  const Esc: char := '\U{1B}'

  /** Colour of the first submatch; each further submatch takes the next one. */
  const FirstColor: nat := 31

  /** The code that ends a highlighted span. */
  const Reset: string := [Esc] + "[0m"

  function Digit(d: nat): (r: char)
    requires d < 10
    ensures '0' <= r <= '9'
  {
    (48 + d) as char
  }

  /** Decimal notation of `n` (fmt's %d): at least one digit, digits only, no leading zero. */
  function Decimal(n: nat): (r: string)
    ensures |r| >= 1
    ensures forall k :: 0 <= k < |r| ==> '0' <= r[k] <= '9'
    ensures r[0] == '0' ==> n == 0
  {
    if n < 10 then [Digit(n)] else Decimal(n / 10) + [Digit(n % 10)]
  }

  /** The value of a string of decimal digits. */
  function DecimalValue(s: string): nat
  {
    if s == [] then 0
    else
      var d := s[|s| - 1] as int - 48;
      10 * DecimalValue(s[..|s| - 1]) + (if 0 <= d then d else 0)
  }

  /** Decimal notation reads back as the number it was made from. */
  lemma {:induction false} DecimalRoundTrip(n: nat)
    ensures DecimalValue(Decimal(n)) == n
  {
    if n >= 10 {
      DecimalRoundTrip(n / 10);
      var s := Decimal(n / 10) + [Digit(n % 10)];
      assert s[..|s| - 1] == Decimal(n / 10);
    }
  }

  /**
   * The code that starts a span in colour `c`: ESC [ c ;1m, one control
   * sequence that opens with ESC and ends at its only 'm'.
   */
  function ColorOpen(c: nat): (r: string)
    ensures |r| >= 2 && r[0] == Esc && r[|r| - 1] == 'm'
    ensures forall k :: 1 <= k < |r| - 1 ==> r[k] != Esc && r[k] != 'm'
  {
    var d := Decimal(c);
    var r := [Esc] + "[" + d + ";1m";
    assert forall k :: 2 <= k < 2 + |d| ==> r[k] == d[k - 2];
    r
  }

  /** `t` in colour `c`; a terminal shows just `t`. */
  function Wrap(c: nat, t: string): (r: string)
    ensures Esc !in t ==> Visible(r) == t
  {
    var r := ColorOpen(c) + t + Reset;
    assert r == ColorOpen(c) + (t + (Reset + []));
    VisibleColorOpen(c, t + (Reset + []));
    if Esc in t then r
    else
      VisiblePlain(t, Reset + []);
      VisibleReset([]);
      r
  }

  /**
   * The passes of highLight: submatch `subs[k]` is replaced, at every
   * occurrence in the string as rewritten by the passes before it, by itself
   * in colour `c + k`.
   */
  function Highlighted(s: string, subs: seq<string>, c: nat): string
    decreases |subs|
  {
    if subs == [] then s
    else Highlighted(ReplaceAll(s, subs[0], Wrap(c, subs[0])), subs[1..], c + 1)
  }

  /**
   * highLight: find the submatches of `reg` in `input` and run one
   * replace-all pass per submatch, colour 31 first.
   */
  method HighLight(input: string, reg: Regexp) returns (r: string)
    ensures r == Highlighted(input, reg.findSubmatch(input), FirstColor)
    ensures reg.findSubmatch(input) == [] ==> r == input
  {
    var m := reg.findSubmatch(input);
    var l := |m|;
    var c := FirstColor;
    r := input;
    var index := 0;
    while index < l
      invariant 0 <= index <= l
      invariant c == FirstColor + index
      invariant Highlighted(r, m[index..], c) == Highlighted(input, m, FirstColor)
    {
      var i := m[index];
      assert m[index..][1..] == m[index + 1..];
      var cpart := ColorOpen(c);
      r := ReplaceAll(r, i, cpart + i + Reset);
      c := c + 1;
      index := index + 1;
    }
  }

  /** Drops a colour code's remainder: everything up to and including the first 'm'. */
  function SkipCode(s: string): (r: string)
    ensures |r| <= |s|
  {
    if s == [] then [] else if s[0] == 'm' then s[1..] else SkipCode(s[1..])
  }

  /** What a terminal shows of `s`: the text with every ESC ... m code removed. */
  function Visible(s: string): string
    decreases |s|
  {
    if s == [] then []
    else if s[0] == Esc then Visible(SkipCode(s[1..]))
    else [s[0]] + Visible(s[1..])
  }

  lemma {:induction false} VisiblePlain(a: string, b: string)
    requires Esc !in a
    ensures Visible(a + b) == a + Visible(b)
    decreases |a|
  {
    if a == [] {
      assert a + b == b;
    } else {
      assert (a + b)[0] == a[0];
      assert (a + b)[1..] == a[1..] + b;
      VisiblePlain(a[1..], b);
    }
  }

  lemma {:induction false} SkipCodeThrough(a: string, b: string)
    requires 'm' !in a
    ensures SkipCode(a + "m" + b) == b
    decreases |a|
  {
    if a == [] {
      assert a + "m" + b == ['m'] + b;
    } else {
      assert (a + "m" + b)[1..] == a[1..] + "m" + b;
      SkipCodeThrough(a[1..], b);
    }
  }

  /** A colour code shows nothing. */
  lemma VisibleColorOpen(c: nat, b: string)
    ensures Visible(ColorOpen(c) + b) == Visible(b)
  {
    var o := ColorOpen(c);
    var body := o[1..|o| - 1];
    assert 'm' !in body by {
      forall k | 0 <= k < |body| ensures body[k] != 'm' {
        assert body[k] == o[k + 1];
      }
    }
    assert o + b == [Esc] + (body + "m" + b);
    SkipCodeThrough(body, b);
  }

  /** The reset code shows nothing. */
  lemma VisibleReset(b: string)
    ensures Visible(Reset + b) == Visible(b)
  {
    assert Reset + b == [Esc] + ("[0" + "m" + b);
    SkipCodeThrough("[0", b);
  }

  /** A wrapped span shows as its text. */
  lemma VisibleWrap(c: nat, t: string, b: string)
    requires Esc !in t
    ensures Visible(Wrap(c, t) + b) == t + Visible(b)
  {
    assert Wrap(c, t) + b == ColorOpen(c) + (t + (Reset + b));
    VisibleColorOpen(c, t + (Reset + b));
    VisiblePlain(t, Reset + b);
    VisibleReset(b);
  }

  /** An empty coloured span inserted at every rune boundary shows nothing. */
  lemma {:induction false} VisibleInsertEverywhere(s: string, c: nat)
    requires Esc !in s
    ensures Visible(InsertEverywhere(s, Wrap(c, []))) == s
  {
    if s == [] {
      VisibleWrap(c, [], []);
      assert Wrap(c, []) + [] == Wrap(c, []);
    } else {
      var w := Wrap(c, []);
      var rest := InsertEverywhere(s[1..], w);
      assert InsertEverywhere(s, w) == w + ([s[0]] + rest);
      VisibleWrap(c, [], [s[0]] + rest);
      VisiblePlain([s[0]], rest);
      VisibleInsertEverywhere(s[1..], c);
    }
  }

  /**
   * One highlighting pass over text without escape codes only adds codes:
   * what the terminal shows is the text itself.
   */
  lemma {:induction false} VisibleReplaceWrap(s: string, t: string, c: nat)
    requires Esc !in s
    ensures Visible(ReplaceAll(s, t, Wrap(c, t))) == s
    decreases |s|
  {
    if t == [] {
      VisibleInsertEverywhere(s, c);
    } else if |s| < |t| {
      VisiblePlain(s, []);
      assert s + [] == s;
    } else if s[..|t|] == t {
      assert Esc !in t by {
        forall k | 0 <= k < |t| ensures t[k] != Esc {
          assert t[k] == s[k];
        }
      }
      VisibleReplaceWrap(s[|t|..], t, c);
      VisibleWrap(c, t, ReplaceAll(s[|t|..], t, Wrap(c, t)));
      assert s == t + s[|t|..];
    } else {
      VisibleReplaceWrap(s[1..], t, c);
      VisiblePlain([s[0]], ReplaceAll(s[1..], t, Wrap(c, t)));
      assert s == [s[0]] + s[1..];
    }
  }

  /** With a single submatch, highlighting is presentation only: the visible text is unchanged. */
  lemma HighlightSingleIsPresentation(s: string, t: string)
    requires Esc !in s
    ensures Visible(Highlighted(s, [t], FirstColor)) == s
  {
    VisibleReplaceWrap(s, t, FirstColor);
  }

  /** Both occurrences of "ab" in "ab ab" are replaced, whatever the replacement. */
  lemma ReplaceBothOccurrences(w: string)
    ensures ReplaceAll("ab ab", "ab", w) == w + " " + w
  {
    assert "ab ab"[2..] == " ab" && " ab"[1..] == "ab" && "ab"[2..] == [];
    assert ReplaceAll("ab", "ab", w) == w;
    assert ReplaceAll(" ab", "ab", w) == " " + w;
  }

  /** Replace-all semantics: both occurrences of "ab" in "ab ab" are wrapped. */
  lemma HighlightWrapsEveryOccurrence()
    ensures Highlighted("ab ab", ["ab"], FirstColor) == Wrap(31, "ab") + " " + Wrap(31, "ab")
  {
    ReplaceBothOccurrences(Wrap(31, "ab"));
  }
  /** A replace-all pass leaves a stretch without the target rune untouched. */
  lemma {:induction false} ReplaceAllSkips(p: string, s: string, c: char, repl: string)
    requires c !in p
    ensures ReplaceAll(p + s, [c], repl) == p + ReplaceAll(s, [c], repl)
    decreases |p|
  {
    if p == [] {
      assert p + s == s;
    } else {
      assert (p + s)[..1] == [p[0]] && (p + s)[0] == p[0];
      assert (p + s)[1..] == p[1..] + s;
      ReplaceAllSkips(p[1..], s, c, repl);
    }
  }

  /** The codes of colours 31 and 32. */
  lemma ColorCodes()
    ensures ColorOpen(31) == [Esc, '['] + "31;1m"
    ensures ColorOpen(32) == [Esc, '['] + "32;1m"
  {
    assert Decimal(31) == "31" && Decimal(32) == "32";
  }

  /** Replacing "3" in the first pass's result, whatever the replacement. */
  lemma PassOverCode(w: string)
    ensures ReplaceAll([Esc, '['] + ("31;1m" + ("3" + Reset)), "3", w)
      == [Esc, '['] + (w + ("1;1m" + (w + Reset)))
  {
    ReplaceAllSkips([Esc, '['], "31;1m" + ("3" + Reset), '3', w);
    assert ("31;1m" + ("3" + Reset))[1..] == "1;1m" + ("3" + Reset);
    ReplaceAllSkips("1;1m", "3" + Reset, '3', w);
    assert ("3" + Reset)[1..] == Reset;
    ReplaceAllSkips(Reset, [], '3', w);
    assert Reset + [] == Reset;
  }

  /** The second pass over the first pass's result on "3". */
  lemma SecondPassOnCodes()
    ensures ReplaceAll(Wrap(31, "3"), "3", Wrap(32, "3"))
      == [Esc, '['] + (Wrap(32, "3") + ("1;1m" + (Wrap(32, "3") + Reset)))
  {
    ColorCodes();
    assert Wrap(31, "3") == [Esc, '['] + ("31;1m" + ("3" + Reset));
    PassOverCode(Wrap(32, "3"));
  }

  /** An ESC [ left behind in front of a wrapped span swallows the span's own opening code. */
  lemma VisibleBrokenCode(c: nat, t: string, rest: string)
    requires Esc !in t
    ensures Visible([Esc, '['] + (Wrap(c, t) + rest)) == t + Visible(rest)
  {
    var d := Decimal(c);
    var body := "[" + [Esc] + "[" + d + ";1";
    assert 'm' !in body by {
      forall k | 0 <= k < |body| ensures body[k] != 'm' {
        if 3 <= k < 3 + |d| {
          assert body[k] == d[k - 3];
        }
      }
    }
    var after := t + (Reset + rest);
    var x := [Esc, '['] + (Wrap(c, t) + rest);
    assert x == [Esc] + (body + "m" + after);
    assert x[0] == Esc && x[1..] == body + "m" + after;
    SkipCodeThrough(body, after);
    VisiblePlain(t, Reset + rest);
    VisibleReset(rest);
  }

  /** What the terminal shows of the second pass's result. */
  lemma VisibleSecondPass()
    ensures Visible([Esc, '['] + (Wrap(32, "3") + ("1;1m" + (Wrap(32, "3") + Reset)))) == "31;1m3"
  {
    var tail := Wrap(32, "3") + Reset;
    VisibleBrokenCode(32, "3", "1;1m" + tail);
    VisiblePlain("1;1m", tail);
    VisibleWrap(32, "3", Reset);
    VisibleReset([]);
    assert Reset + [] == Reset;
  }

  /**
   * Later passes run over the codes inserted by earlier ones. With the
   * submatches ["3", "3"] (the pattern (3) on the string "3"), the second
   * pass rewrites the digit inside the first colour code, and the terminal
   * then shows "31;1m3" instead of "3".
   */
  lemma HighlightRewritesEarlierCodes()
    ensures Visible(Highlighted("3", ["3", "3"], FirstColor)) == "31;1m3"
  {
    var w31 := Wrap(31, "3");
    assert "3"[..1] == "3" && "3"[1..] == [];
    assert ReplaceAll("3", "3", w31) == w31;
    assert Highlighted("3", ["3", "3"], FirstColor) == ReplaceAll(w31, "3", Wrap(32, "3"));
    SecondPassOnCodes();
    VisibleSecondPass();
  }
}
