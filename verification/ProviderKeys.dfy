/** Runtime-provider keys: the console's normalisation and the provider ids its form registers.

    Lower-casing is the parameter `lower`, one character at a time; it must leave ASCII characters
    other than capital letters alone. */
module ProviderKeys {
  import opened Texts

  type Lower = char -> string

  ghost predicate KeepsLowerAscii(lower: Lower) {
    forall c: char :: c < 128 as char && !('A' <= c <= 'Z') ==> lower(c) == [c]
  }

  predicate Alphanumeric(c: char) { 'a' <= c <= 'z' || '0' <= c <= '9' }

  predicate Underscore(c: char) { c == '_' }

  function LowerAll(lower: Lower, s: string): string {
    if s == "" then "" else lower(s[0]) + LowerAll(lower, s[1..])
  }

  function SkipRun(s: string): (r: string)
    ensures |r| <= |s| && (r == "" || Alphanumeric(r[0]))
  {
    if s == "" || Alphanumeric(s[0]) then s else SkipRun(s[1..])
  }

  /** `replace(/[^a-z0-9]+/g, separator)`. */
  function Collapse(s: string, separator: char): string
    decreases |s|
  {
    if s == "" then ""
    else if Alphanumeric(s[0]) then [s[0]] + Collapse(s[1..], separator)
    else [separator] + Collapse(SkipRun(s[1..]), separator)
  }

  function Normalise(lower: Lower, provider: string): string {
    Strip(Collapse(LowerAll(lower, Strip(provider, JsSpace)), '_'), Underscore)
  }

  const ALIASES: map<string, string> :=
    map["open_ai" := "openai", "anthropic_ai" := "anthropic", "openai_compatible" := "custom", "other" := "custom"]

  /** `runtimeProviderKey`. */
  function Key(lower: Lower, provider: string): string {
    var normalised := Normalise(lower, provider);
    if "custom_" <= normalised then "custom"
    else if normalised in ALIASES then ALIASES[normalised]
    else normalised
  }

  /** Drop one separator at each end, as the form's second replacement does. */
  function DropEnds(s: string): string {
    var t := if s != "" && s[0] == '-' then s[1..] else s;
    if t != "" && t[|t| - 1] == '-' then t[..|t| - 1] else t
  }

  /** The provider id the registration form builds for a custom provider. */
  function CustomProviderId(lower: Lower, name: string): string {
    "custom:" + DropEnds(Collapse(LowerAll(lower, Strip(name, JsSpace)), '-'))
  }

  // ---- normal forms -------------------------------------------------------------------------------

  /** Lower-case letters and digits, joined by single underscores. */
  predicate NormalForm(s: string) {
    && (forall i :: 0 <= i < |s| ==> Alphanumeric(s[i]) || s[i] == '_')
    && (forall i :: 0 <= i < |s| - 1 ==> Alphanumeric(s[i]) || Alphanumeric(s[i + 1]))
    && Trimmed(s, Underscore)
  }

  lemma {:induction false} CollapseShape(s: string)
    ensures var r := Collapse(s, '_');
            && (forall i :: 0 <= i < |r| ==> Alphanumeric(r[i]) || r[i] == '_')
            && (forall i :: 0 <= i < |r| - 1 ==> Alphanumeric(r[i]) || Alphanumeric(r[i + 1]))
            && (s != "" && Alphanumeric(s[0]) ==> r != "" && r[0] == s[0])
    decreases |s|
  {
    if s != "" {
      var rest := if Alphanumeric(s[0]) then s[1..] else SkipRun(s[1..]);
      CollapseShape(rest);
      var r, q := Collapse(s, '_'), Collapse(rest, '_');
      assert r[1..] == q;
      forall i | 0 <= i < |r| - 1 ensures Alphanumeric(r[i]) || Alphanumeric(r[i + 1]) {
        if i > 0 { assert r[i] == q[i - 1] && r[i + 1] == q[i]; }
      }
    }
  }

  lemma {:induction false} StripLeftIsSuffix(s: string, space: char -> bool) returns (k: nat)
    ensures k <= |s| && StripLeft(s, space) == s[k..]
  {
    if s != "" && space(s[0]) {
      var j := StripLeftIsSuffix(s[1..], space);
      k := j + 1;
    } else {
      k := 0;
    }
  }

  lemma StripIsSlice(c: string) returns (k: nat)
    ensures k + |Strip(c, Underscore)| <= |c|
    ensures forall i :: 0 <= i < |Strip(c, Underscore)| ==> Strip(c, Underscore)[i] == c[i + k]
  {
    StripLeftDrops(c, Underscore);
    k := StripLeftIsSuffix(c, Underscore);
    StripRightKeepsFront(c[k..], Underscore);
    assert Strip(c, Underscore) <= c[k..];
  }

  lemma NormalisedIsNormalForm(lower: Lower, provider: string)
    ensures NormalForm(Normalise(lower, provider))
  {
    CollapsedStripsToNormalForm(LowerAll(lower, Strip(provider, JsSpace)));
  }

  lemma CollapsedStripsToNormalForm(s: string)
    ensures NormalForm(Strip(Collapse(s, '_'), Underscore))
  {
    var c := Collapse(s, '_');
    CollapseShape(s);
    StripIsTrimmed(c, Underscore);
    var k := StripIsSlice(c);
    var r := Strip(c, Underscore);
    forall i | 0 <= i < |r| - 1 ensures Alphanumeric(r[i]) || Alphanumeric(r[i + 1]) {
      assert r[i] == c[i + k] && r[i + 1] == c[i + k + 1];
    }
  }

  lemma {:induction false} LowerFixes(lower: Lower, s: string)
    requires KeepsLowerAscii(lower)
    requires forall i :: 0 <= i < |s| ==> Alphanumeric(s[i]) || s[i] == '_'
    ensures LowerAll(lower, s) == s
  {
    if s != "" {
      LowerFixes(lower, s[1..]);
    }
  }

  lemma {:induction false} CollapseFixes(s: string)
    requires forall i :: 0 <= i < |s| ==> Alphanumeric(s[i]) || s[i] == '_'
    requires forall i :: 0 <= i < |s| - 1 ==> Alphanumeric(s[i]) || Alphanumeric(s[i + 1])
    ensures Collapse(s, '_') == s
    decreases |s|
  {
    if s != "" {
      var t := s[1..];
      forall i | 0 <= i < |t| - 1 ensures Alphanumeric(t[i]) || Alphanumeric(t[i + 1]) {
        assert t[i] == s[i + 1] && t[i + 1] == s[i + 1 + 1];
      }
      CollapseFixes(t);
      assert s == [s[0]] + t;
      if !Alphanumeric(s[0]) && t != "" {
        assert t[0] == s[0 + 1];
        assert SkipRun(t) == t;
      }
    }
  }

  lemma NormalFormIsFixed(lower: Lower, s: string)
    requires KeepsLowerAscii(lower) && NormalForm(s)
    ensures Normalise(lower, s) == s
  {
    StripFixesExactlyTrimmed(s, JsSpace);
    LowerFixes(lower, s);
    CollapseFixes(s);
    StripFixesExactlyTrimmed(s, Underscore);
  }

  predicate AliasTarget(s: string) { s == "custom" || s == "openai" || s == "anthropic" }

  lemma AliasTargetsAreNormal(s: string)
    requires AliasTarget(s)
    ensures NormalForm(s)
  {
  }

  lemma AliasTargetsAreNoAliases(s: string)
    requires AliasTarget(s)
    ensures s !in ALIASES && !("custom_" <= s)
  {
    assert s[0] == 'c' || s == "openai" || s[0] == 'a';
    assert |s| <= 9;
    assert "open_ai"[4] == '_' && "openai"[4] == 'a';
  }

  lemma AliasTargetsAreFixed(lower: Lower, s: string)
    requires KeepsLowerAscii(lower) && AliasTarget(s)
    ensures Key(lower, s) == s
  {
    AliasTargetsAreNormal(s);
    NormalFormIsFixed(lower, s);
    AliasTargetsAreNoAliases(s);
  }

  /** Taking the key of a key changes nothing. */
  lemma KeyIsIdempotent(lower: Lower, provider: string)
    requires KeepsLowerAscii(lower)
    ensures Key(lower, Key(lower, provider)) == Key(lower, provider)
  {
    var n := Normalise(lower, provider);
    NormalisedIsNormalForm(lower, provider);
    if "custom_" <= n || n in ALIASES {
      AliasTargetsAreFixed(lower, Key(lower, provider));
    } else {
      NormalFormIsFixed(lower, n);
    }
  }

  /** Which names share a key: those of the custom family, of OpenAI and of Anthropic; any other name
      has its own normal form as its key. */
  lemma KeyExactly(lower: Lower, provider: string)
    ensures var k, n := Key(lower, provider), Normalise(lower, provider);
            && (k == "custom" <==> n in {"custom", "openai_compatible", "other"} || "custom_" <= n)
            && (k == "openai" <==> n in {"openai", "open_ai"})
            && (k == "anthropic" <==> n in {"anthropic", "anthropic_ai"})
            && (k !in {"custom", "openai", "anthropic"} ==> k == n)
  {
    var n := Normalise(lower, provider);
    assert "custom_" <= n ==> n[0] == 'c' && n[6] == '_';
    assert "openai"[0] == 'o' && "anthropic"[0] == 'a' && "open_ai"[0] == 'o' && "anthropic_ai"[0] == 'a';
    assert "openai_compatible"[0] == 'o' && "other"[0] == 'o';
  }

  function Kept(s: string): string {
    if s == "" then "" else (if Alphanumeric(s[0]) then [s[0]] else "") + Kept(s[1..])
  }

  lemma {:induction false} KeptConcat(a: string, b: string)
    ensures Kept(a + b) == Kept(a) + Kept(b)
  {
    if a == "" {
      assert a + b == b;
    } else {
      KeptConcat(a[1..], b);
      FirstOf(a, b);
      Regroup(if Alphanumeric(a[0]) then [a[0]] else "", Kept(a[1..]), Kept(b));
    }
  }

  lemma {:induction false} KeptOfUnderscores(s: string)
    requires AllSpace(s, Underscore)
    ensures Kept(s) == ""
  {
    if s != "" { KeptOfUnderscores(s[1..]); }
  }

  lemma {:induction false} SkipKeeps(s: string)
    ensures Kept(SkipRun(s)) == Kept(s)
  {
    if s != "" && !Alphanumeric(s[0]) { SkipKeeps(s[1..]); }
  }

  lemma {:induction false} CollapseKeeps(s: string)
    ensures Kept(Collapse(s, '_')) == Kept(s)
    decreases |s|
  {
    if s != "" {
      var rest := if Alphanumeric(s[0]) then s[1..] else SkipRun(s[1..]);
      CollapseKeeps(rest);
      SkipKeeps(s[1..]);
      assert Collapse(s, '_')[1..] == Collapse(rest, '_');
    }
  }

  /** Normalising keeps the letters and digits of the lower-cased name, in order; it only changes what
      stands between them. */
  lemma NormaliseKeeps(lower: Lower, provider: string)
    ensures Kept(Normalise(lower, provider)) == Kept(LowerAll(lower, Strip(provider, JsSpace)))
  {
    var t := LowerAll(lower, Strip(provider, JsSpace));
    var c := Collapse(t, '_');
    CollapseKeeps(t);
    StripDropsOnlySpace(c, Underscore);
    var a, b :| c == a + Strip(c, Underscore) + b && AllSpace(a, Underscore) && AllSpace(b, Underscore);
    KeptOfUnderscores(a);
    KeptOfUnderscores(b);
    KeptConcat(a + Strip(c, Underscore), b);
    KeptConcat(a, Strip(c, Underscore));
  }

  // ---- custom providers --------------------------------------------------------------------------

  lemma {:induction false} StripRightConcat(a: string, b: string, space: char -> bool)
    requires a != "" && !space(a[|a| - 1])
    ensures StripRight(a + b, space) == a + StripRight(b, space)
    decreases |b|
  {
    if b == "" {
      assert a + b == a;
    } else if space(b[|b| - 1]) {
      assert (a + b)[..|a + b| - 1] == a + b[..|b| - 1];
      StripRightConcat(a, b[..|b| - 1], space);
    }
  }

  lemma {:induction false} LowerConcat(lower: Lower, a: string, b: string)
    ensures LowerAll(lower, a + b) == LowerAll(lower, a) + LowerAll(lower, b)
  {
    if a == "" {
      assert a + b == b;
    } else {
      assert (a + b)[1..] == a[1..] + b;
      LowerConcat(lower, a[1..], b);
    }
  }

  lemma {:induction false} CollapseLetters(a: string, b: string)
    requires forall i :: 0 <= i < |a| ==> Alphanumeric(a[i])
    ensures Collapse(a + b, '_') == a + Collapse(b, '_')
  {
    if a == "" {
      assert a + b == b;
    } else {
      assert (a + b)[1..] == a[1..] + b;
      CollapseLetters(a[1..], b);
    }
  }

  lemma LowerPrefix(lower: Lower)
    requires KeepsLowerAscii(lower)
    ensures LowerAll(lower, "custom:") == "custom:"
  {
    LowerFixes(lower, "custom");
    LowerConcat(lower, "custom", ":");
    assert "custom" + ":" == "custom:";
    assert ":"[1..] == "" && LowerAll(lower, "") == "";
    assert LowerAll(lower, ":") == ":";
  }

  const CUSTOM := "custom"

  lemma CustomCollapses(lower: Lower, rest: string) returns (w: string)
    requires KeepsLowerAscii(lower)
    ensures Collapse(LowerAll(lower, Strip("custom:" + rest, JsSpace)), '_') == CUSTOM + (['_'] + w)
    ensures w == "" || Alphanumeric(w[0])
  {
    var s := "custom:" + rest;
    assert s[0] == 'c';
    assert StripLeft(s, JsSpace) == s;
    StripRightConcat("custom:", rest, JsSpace);
    var y := StripRight(rest, JsSpace);
    LowerConcat(lower, "custom:", y);
    LowerPrefix(lower);
    var z := LowerAll(lower, y);
    w := CollapsesAfterColon(z);
  }

  lemma CollapsesAfterColon(z: string) returns (w: string)
    ensures Collapse("custom:" + z, '_') == CUSTOM + (['_'] + w) && (w == "" || Alphanumeric(w[0]))
  {
    var tail := ":" + z;
    assert "custom:" + z == CUSTOM + tail;
    CollapseLetters(CUSTOM, tail);
    assert tail[1..] == z;
    w := Collapse(SkipRun(z), '_');
    CollapseShape(SkipRun(z));
  }

  lemma CustomStrips(w: string)
    requires w == "" || Alphanumeric(w[0])
    ensures var n := Strip(CUSTOM + (['_'] + w), Underscore);
            n == "custom" || "custom_" <= n
  {
    var c := CUSTOM + (['_'] + w);
    assert c[0] == 'c';
    assert StripLeft(c, Underscore) == c;
    StripRightConcat(CUSTOM, ['_'] + w, Underscore);
    if w == "" {
      assert ['_'] + w == "_" && "_"[..0] == "";
      assert StripRight("_", Underscore) == "";
    } else {
      StripRightKeepsFront(w, Underscore);
      StripOfTail(['_'], w);
      assert CUSTOM + (['_'] + StripRight(w, Underscore)) == "custom_" + StripRight(w, Underscore);
    }
  }

  /** Whatever follows "custom:", the normal form is "custom", alone or before an underscore. */
  lemma CustomNormalForm(lower: Lower, rest: string)
    requires KeepsLowerAscii(lower)
    ensures var n := Normalise(lower, "custom:" + rest);
            n == "custom" || "custom_" <= n
  {
    var w := CustomCollapses(lower, rest);
    CustomStrips(w);
  }

  lemma {:induction false} StripOfTail(a: string, w: string)
    requires StripRight(w, Underscore) != ""
    ensures StripRight(a + w, Underscore) == a + StripRight(w, Underscore)
    decreases |w|
  {
    if w[|w| - 1] == '_' {
      assert (a + w)[..|a + w| - 1] == a + w[..|w| - 1];
      StripOfTail(a, w[..|w| - 1]);
    }
  }

  /** Every custom provider the form registers has the key "custom", empty slugs included. */
  lemma CustomProvidersHaveCustomKey(lower: Lower, name: string)
    requires KeepsLowerAscii(lower)
    ensures Key(lower, CustomProviderId(lower, name)) == "custom"
  {
    CustomNormalForm(lower, DropEnds(Collapse(LowerAll(lower, Strip(name, JsSpace)), '-')));
  }
}
