/** JSON Pointer paths (RFC 6901, sections 3 and 4): the console writes them, the intervention
    provider reads them. */
module JsonPointer {
  import opened Texts

  /** `replaceAll` of one character. */
  function ReplaceChar(s: string, c: char, replacement: string): string {
    if s == "" then "" else (if s[0] == c then replacement else [s[0]]) + ReplaceChar(s[1..], c, replacement)
  }

  /** Python's `replace` of a two-character text, leftmost first and without overlap. */
  function ReplacePair(s: string, a: char, b: char, replacement: char): string {
    if s == "" then ""
    else if |s| >= 2 && s[0] == a && s[1] == b then [replacement] + ReplacePair(s[2..], a, b, replacement)
    else [s[0]] + ReplacePair(s[1..], a, b, replacement)
  }

  function EscapeToken(name: string): string {
    ReplaceChar(ReplaceChar(name, '~', "~0"), '/', "~1")
  }

  function UnescapeToken(token: string): string {
    ReplacePair(ReplacePair(token, '~', '1', '/'), '~', '0', '~')
  }

  predicate Slash(c: char) { c == '/' }

  /** The path the console builds for a chain of property names. */
  function PathOf(tokens: seq<string>): string {
    if tokens == [] then "" else "/" + EscapeToken(tokens[0]) + PathOf(tokens[1..])
  }

  function UnescapeAll(pieces: seq<string>): seq<string> {
    if pieces == [] then [] else [UnescapeToken(pieces[0])] + UnescapeAll(pieces[1..])
  }

  /** The tokens the provider reads from a path. */
  function Tokens(path: string): seq<string> {
    UnescapeAll(SplitOn(path, Slash)[1..])
  }

  function EscapedChar(c: char): string {
    if c == '~' then "~0" else if c == '/' then "~1" else [c]
  }

  lemma EscapeTokenCons(s: string)
    requires s != ""
    ensures EscapeToken(s) == EscapedChar(s[0]) + EscapeToken(s[1..])
  {
    var t := ReplaceChar(s[1..], '~', "~0");
    if s[0] == '~' {
      assert ReplaceChar(s, '~', "~0") == "~0" + t;
      assert ("~0" + t)[1..] == "0" + t && ("0" + t)[1..] == t;
      assert ReplaceChar("0" + t, '/', "~1") == "0" + ReplaceChar(t, '/', "~1");
    } else {
      assert ReplaceChar(s, '~', "~0") == [s[0]] + t;
      assert ([s[0]] + t)[1..] == t;
    }
  }

  lemma {:induction false} NoSlashes(s: string)
    ensures forall i :: 0 <= i < |EscapeToken(s)| ==> !Slash(EscapeToken(s)[i])
  {
    if s != "" {
      EscapeTokenCons(s);
      NoSlashes(s[1..]);
    }
  }

  lemma {:induction false} SlashesRestored(s: string)
    ensures ReplacePair(EscapeToken(s), '~', '1', '/') == ReplaceChar(s, '~', "~0")
  {
    if s != "" {
      EscapeTokenCons(s);
      SlashesRestored(s[1..]);
      CharRestored(s[0], EscapeToken(s[1..]));
    }
  }

  lemma CharRestored(c: char, rest: string)
    ensures ReplacePair(EscapedChar(c) + rest, '~', '1', '/')
         == (if c == '~' then "~0" else [c]) + ReplacePair(rest, '~', '1', '/')
  {
    var e := EscapedChar(c) + rest;
    if c == '~' {
      Unpaired('~', "0" + rest);
      Unpaired('0', rest);
      Regroup("~", "0", rest);
      assert ["~"[0]] + ("0" + rest) == e;
      Regroup("~", "0", ReplacePair(rest, '~', '1', '/'));
    } else if c == '/' {
      assert e[2..] == rest;
    } else {
      Unpaired(c, rest);
    }
  }

  lemma Unpaired(c: char, rest: string)
    requires c != '~' || rest == "" || rest[0] != '1'
    ensures ReplacePair([c] + rest, '~', '1', '/') == [c] + ReplacePair(rest, '~', '1', '/')
  {
    assert ([c] + rest)[1..] == rest;
  }

  lemma {:induction false} TildesRestored(s: string)
    ensures ReplacePair(ReplaceChar(s, '~', "~0"), '~', '0', '~') == s
  {
    if s != "" {
      TildesRestored(s[1..]);
      var rest := ReplaceChar(s[1..], '~', "~0");
      if s[0] == '~' {
        assert ("~0" + rest)[2..] == rest;
      } else {
        assert ([s[0]] + rest)[1..] == rest;
      }
    }
  }

  /** Decoding undoes the two-pass escape of every property name, and an escaped name never
      contains a slash. */
  lemma TokenRoundTrip(name: string)
    ensures UnescapeToken(EscapeToken(name)) == name
    ensures forall i :: 0 <= i < |EscapeToken(name)| ==> !Slash(EscapeToken(name)[i])
  {
    NoSlashes(name);
    SlashesRestored(name);
    TildesRestored(name);
  }

  lemma {:induction false} PathSplits(head: string, tokens: seq<string>)
    requires forall i :: 0 <= i < |head| ==> !Slash(head[i])
    ensures SplitOn(head + PathOf(tokens), Slash)[0] == head
    ensures UnescapeAll(SplitOn(head + PathOf(tokens), Slash)[1..]) == tokens
    decreases |tokens|
  {
    if tokens == [] {
      assert head + PathOf(tokens) == head;
      SplitUncut(head, Slash);
    } else {
      var first := EscapeToken(tokens[0]);
      TokenRoundTrip(tokens[0]);
      PathSplits(first, tokens[1..]);
      assert head + PathOf(tokens) == head + ['/'] + (first + PathOf(tokens[1..]));
      SplitAtSeparator(head, '/', first + PathOf(tokens[1..]), Slash);
      var pieces := SplitOn(first + PathOf(tokens[1..]), Slash);
      assert ([head] + pieces)[1..] == pieces;
    }
  }

  /** The escape goes character by character: "~0" for a tilde, "~1" for a slash, others as they are. */
  lemma {:induction false} EscapeIsCharacterwise(a: string, b: string)
    ensures EscapeToken(a + b) == EscapeToken(a) + EscapeToken(b)
    ensures |a| == 1 ==> EscapeToken(a) == if a[0] == '~' then "~0" else if a[0] == '/' then "~1" else a
  {
    if a == "" {
      assert a + b == b;
    } else {
      assert (a + b)[0] == a[0] && (a + b)[1..] == a[1..] + b;
      EscapeTokenCons(a);
      EscapeTokenCons(a + b);
      EscapeIsCharacterwise(a[1..], b);
      Regroup(EscapedChar(a[0]), EscapeToken(a[1..]), EscapeToken(b));
    }
  }

  /** The provider reads back exactly the chain of names the console wrote. */
  lemma PathRoundTrip(tokens: seq<string>)
    ensures Tokens(PathOf(tokens)) == tokens
  {
    PathSplits("", tokens);
    assert "" + PathOf(tokens) == PathOf(tokens);
  }

  lemma {:induction false} PathOfConcatenation(a: seq<string>, b: seq<string>)
    ensures PathOf(a + b) == PathOf(a) + PathOf(b)
  {
    if a == [] {
      assert a + b == b;
    } else {
      assert (a + b)[1..] == a[1..] + b;
      PathOfConcatenation(a[1..], b);
    }
  }
}
