/** `stringifyJsonWithEscapedQuotes`: the JSON text of a value is made fit to
    sit inside a double-quoted GraphQL argument. First every `"type":"V"`
    (V non-empty, free of `"`) found by a global left-to-right regular
    expression replace becomes `"type":` followed by V in upper case, an
    unquoted enum token; then every remaining `"` is escaped as `\"`.

    The input is the text `JSON.stringify` produced; serialisation itself is
    not modelled. */
module GraphQLEncoding {
  import opened Strings

  /** What a match is replaced with before the value: `"type":`. */
  const TypeKey: string := "\"" + "type" + "\"" + ":"

  /** The literal start of the pattern: `"type":"`. */
  const TypeOpen: string := TypeKey + "\""

  // ---------------------------------------------------------------------------
  // Upper-casing (ASCII)

  function UpperChar(c: char): char
  {
    if 'a' <= c <= 'z' then (c as int - 32) as char else c
  }

  /** `toUpperCase`, restricted to ASCII letters. */
  function UpperCase(s: string): (r: string)
    ensures |r| == |s|
    ensures forall i :: 0 <= i < |s| ==> r[i] == UpperChar(s[i])
  {
    if s == [] then [] else [UpperChar(s[0])] + UpperCase(s[1..])
  }

  /** Upper-casing never creates or removes a quote. */
  lemma {:induction false} UpperCaseKeepsQuotes(s: string)
    ensures Count(UpperCase(s), '"') == Count(s, '"')
  {
    if s != [] {
      assert UpperCase(s)[1..] == UpperCase(s[1..]);
      UpperCaseKeepsQuotes(s[1..]);
    }
  }

  // ---------------------------------------------------------------------------
  // The type-unquoting rewrite: /"type":"([^"]+)"/g

  /** Length of the value captured by a match at the start of `s`: the run of
      non-quote characters after `"type":"`. */
  function ValueLength(s: string): nat
    requires TypeOpen <= s
  {
    FirstIndex(s[|TypeOpen|..], '"')
  }

  /** The pattern matches at the start of `s`: `"type":"`, at least one
      non-quote character, then a closing `"`. */
  predicate MatchAt(s: string)
  {
    && TypeOpen <= s
    && 0 < ValueLength(s) < |s| - |TypeOpen|
  }

  /** A piece of the input as the left-to-right scan sees it: a character
      copied as is, or a whole match with its captured value. */
  datatype Segment = Lit(c: char) | TypeValue(value: string)

  /** The input text a segmentation stands for. */
  function Original(segs: seq<Segment>): string
  {
    if segs == [] then []
    else
      (match segs[0]
       case Lit(c) => [c]
       case TypeValue(v) => TypeOpen + v + "\"") + Original(segs[1..])
  }

  /** The text after the replace: each match becomes `"type":` + upper-cased
      value; literal characters are kept. */
  function Rewritten(segs: seq<Segment>): string
  {
    if segs == [] then []
    else
      (match segs[0]
       case Lit(c) => [c]
       case TypeValue(v) => TypeKey + UpperCase(v)) + Rewritten(segs[1..])
  }

  /** What makes a segmentation the one a global regex replace finds: every
      captured value is non-empty and quote-free, and a character is copied
      literally only where the pattern does not match. */
  predicate Canonical(segs: seq<Segment>)
  {
    segs == [] ||
    (&& (match segs[0]
         case Lit(_) => !MatchAt(Original(segs))
         case TypeValue(v) => v != [] && '"' !in v)
     && Canonical(segs[1..]))
  }

  /** Number of matches. */
  function MatchCount(segs: seq<Segment>): nat
  {
    if segs == [] then 0
    else (if segs[0].TypeValue? then 1 else 0) + MatchCount(segs[1..])
  }

  /** The scan of the global replace: try the pattern at the current place;
      on a match skip past it, otherwise copy one character. */
  function Scan(s: string): (segs: seq<Segment>)
    ensures Original(segs) == s
    ensures Canonical(segs)
    decreases |s|
  {
    if s == [] then []
    else if MatchAt(s) then
      var k := ValueLength(s);
      var n := |TypeOpen|;
      var v, rest := s[n..n + k], s[n + k + 1..];
      assert s == TypeOpen + v + "\"" + rest;
      [TypeValue(v)] + Scan(rest)
    else
      assert s == [s[0]] + s[1..];
      [Lit(s[0])] + Scan(s[1..])
  }

  /** The rewrite `jsonString.replace(/"type":"([^"]+)"/g, …)`. */
  function UnquoteTypes(s: string): string
  {
    Rewritten(Scan(s))
  }

  /** The scan is the only canonical segmentation of its input, so the
      rewrite is exactly "replace the left-to-right, non-overlapping matches
      and copy everything else". */
  lemma {:induction false} ScanUnique(s: string, segs: seq<Segment>)
    requires Original(segs) == s
    requires Canonical(segs)
    ensures segs == Scan(s)
    decreases |segs|
  {
    if segs != [] {
      var rest := segs[1..];
      match segs[0]
      case Lit(c) =>
        assert s == [c] + Original(rest);
        assert s[1..] == Original(rest);
        ScanUnique(s[1..], rest);
      case TypeValue(v) =>
        var n := |TypeOpen|;
        var after := "\"" + Original(rest);
        assert s == TypeOpen + (v + after);
        assert TypeOpen <= s;
        assert s[n..] == v + after;
        FirstIndexSkip(v, after, '"');
        assert FirstIndex(after, '"') == 0;
        assert ValueLength(s) == |v|;
        MatchPieces(TypeOpen, v, '"', Original(rest));
        ScanUnique(s[n + |v| + 1..], rest);
    }
  }

  /** Where the pieces of a match sit in its text. */
  lemma MatchPieces(key: string, v: string, q: char, rest: string)
    ensures var s := key + (v + ([q] + rest));
      s[|key|..|key| + |v|] == v && s[|key| + |v| + 1..] == rest
  {
    var s := key + (v + ([q] + rest));
    assert s[|key|..] == v + ([q] + rest);
    assert s[|key|..|key| + |v|] == s[|key|..][..|v|];
    assert s[|key| + |v| + 1..] == s[|key|..][|v| + 1..];
  }

  /** Any text cut into its non-overlapping matches and the characters
      between them is rewritten match by match: each `"type":"V"` becomes
      `"type":` + upper-cased V and every other character is kept. */
  lemma RewriteBySegments(segs: seq<Segment>)
    requires Canonical(segs)
    ensures UnquoteTypes(Original(segs)) == Rewritten(segs)
  {
    ScanUnique(Original(segs), segs);
  }

  /** With no match anywhere, the rewrite is the identity. */
  lemma {:induction false} NoMatchIsIdentity(s: string)
    requires forall p :: 0 <= p <= |s| ==> !MatchAt(s[p..])
    ensures UnquoteTypes(s) == s
    decreases |s|
  {
    if s != [] {
      assert !MatchAt(s[0..]) && s[0..] == s;
      forall p | 0 <= p <= |s[1..]|
        ensures !MatchAt(s[1..][p..])
      {
        assert s[1..][p..] == s[p + 1..];
      }
      NoMatchIsIdentity(s[1..]);
      assert Scan(s) == [Lit(s[0])] + Scan(s[1..]);
    }
  }

  /** A copied character: one step of the scan that is not a match. */
  lemma LitStep(s: string)
    requires s != [] && !MatchAt(s)
    ensures UnquoteTypes(s) == [s[0]] + UnquoteTypes(s[1..])
  {
    assert Scan(s) == [Lit(s[0])] + Scan(s[1..]);
  }

  /** An empty value, `"type":""`, is no match: the quantifier `+` needs at
      least one character. The scan copies the opening quote and moves on. */
  lemma EmptyValueNotRewritten(t: string)
    ensures !MatchAt(TypeOpen + "\"" + t)
    ensures Scan(TypeOpen + "\"" + t)[0] == Lit('"')
    ensures UnquoteTypes(TypeOpen + "\"" + t) == "\"" + UnquoteTypes((TypeOpen + "\"" + t)[1..])
  {
    var s := TypeOpen + "\"" + t;
    assert s[|TypeOpen|..] == "\"" + t;
    assert ValueLength(s) == 0;
    LitStep(s);
  }

  /** Each match trades its two surrounding quotes for none: the rewrite
      removes exactly two quotes per match. */
  lemma {:induction false} RewriteQuoteCount(segs: seq<Segment>)
    requires Canonical(segs)
    ensures Count(Rewritten(segs), '"') + 2 * MatchCount(segs) == Count(Original(segs), '"')
  {
    if segs != [] {
      RewriteQuoteCount(segs[1..]);
      var ro, rr := Original(segs[1..]), Rewritten(segs[1..]);
      match segs[0]
      case Lit(c) =>
        CountAppend([c], ro, '"');
        CountAppend([c], rr, '"');
      case TypeValue(v) =>
        CountZero(v, '"');
        UpperCaseKeepsQuotes(v);
        KeyQuoteCounts();
        CountAppend(TypeKey, UpperCase(v), '"');
        CountAppend(TypeKey + UpperCase(v), rr, '"');
        CountAppend(TypeOpen, v, '"');
        CountAppend(TypeOpen + v, "\"", '"');
        CountAppend(TypeOpen + v + "\"", ro, '"');
    }
  }

  lemma KeyQuoteCounts()
    ensures Count(TypeOpen, '"') == 3 && Count(TypeKey, '"') == 2 && Count("\"", '"') == 1
  {
    CountZero("type", '"');
    CountZero(":", '"');
    CountPieces("\"", "type", "\"", ":", '"');
    CountAppend(TypeKey, "\"", '"');
  }

  /** Quote count after the rewrite = quote count before - 2 * matches. */
  lemma UnquoteTypesQuoteCount(s: string)
    ensures Count(UnquoteTypes(s), '"') == Count(s, '"') - 2 * MatchCount(Scan(s))
  {
    RewriteQuoteCount(Scan(s));
  }

  // ---------------------------------------------------------------------------
  // Quote escaping: replace(/"/g, '\\"')

  /** Inserts a backslash before every `"`. */
  function EscapeQuotes(s: string): string
  {
    if s == [] then []
    else (if s[0] == '"' then "\\\"" else [s[0]]) + EscapeQuotes(s[1..])
  }

  /** Deletes the backslash in front of each `"`: the inverse of the escape. */
  function Unescape(s: string): string
  {
    if s == [] then []
    else if |s| >= 2 && s[0] == '\\' && s[1] == '"' then "\"" + Unescape(s[2..])
    else [s[0]] + Unescape(s[1..])
  }

  /** Escaped text never begins with a bare quote. */
  lemma EscapeHead(s: string)
    ensures EscapeQuotes(s) != [] ==> EscapeQuotes(s)[0] != '"'
  {
  }

  /** The escaped text is the input plus one backslash per quote. */
  lemma {:induction false} EscapeLength(s: string)
    ensures |EscapeQuotes(s)| == |s| + Count(s, '"')
  {
    if s != [] {
      EscapeLength(s[1..]);
    }
  }

  /** Every quote of the escaped text sits right after a backslash. */
  lemma {:induction false} EscapedQuotesArePreceded(s: string)
    ensures var e := EscapeQuotes(s);
      forall i :: 0 <= i < |e| && e[i] == '"' ==> 0 < i && e[i - 1] == '\\'
  {
    if s != [] {
      EscapedQuotesArePreceded(s[1..]);
      EscapeHead(s[1..]);
      var head := if s[0] == '"' then "\\\"" else [s[0]];
      var e, tail := EscapeQuotes(s), EscapeQuotes(s[1..]);
      assert e == head + tail;
      forall i | 0 <= i < |e| && e[i] == '"'
        ensures 0 < i && e[i - 1] == '\\'
      {
        if i >= |head| {
          assert e[i] == tail[i - |head|];
          if i - |head| > 0 {
            assert e[i - 1] == tail[i - |head| - 1];
          }
        }
      }
    }
  }

  /** Characters other than `"` and `\` are neither added nor removed;
      quotes are kept and one backslash is added per quote. */
  lemma {:induction false} EscapeCounts(s: string, c: char)
    ensures Count(EscapeQuotes(s), c) ==
      Count(s, c) + (if c == '\\' then Count(s, '"') else 0)
  {
    if s != [] {
      EscapeCounts(s[1..], c);
      var head := if s[0] == '"' then "\\\"" else [s[0]];
      CountAppend(head, EscapeQuotes(s[1..]), c);
    }
  }

  /** Round trip: undoing the escape gives back the intermediate text. */
  lemma {:induction false} UnescapeEscapeQuotes(s: string)
    ensures Unescape(EscapeQuotes(s)) == s
  {
    if s != [] {
      var tail := EscapeQuotes(s[1..]);
      UnescapeEscapeQuotes(s[1..]);
      if s[0] == '"' {
        assert EscapeQuotes(s) == "\\\"" + tail;
        assert (("\\\"" + tail)[2..]) == tail;
      } else {
        EscapeHead(s[1..]);
        assert EscapeQuotes(s) == [s[0]] + tail;
        assert ([s[0]] + tail)[1..] == tail;
      }
    }
  }

  /** Text with no quote is not changed by the escape. */
  lemma {:induction false} EscapeWithoutQuotes(s: string)
    requires '"' !in s
    ensures EscapeQuotes(s) == s
  {
    if s != [] {
      EscapeWithoutQuotes(s[1..]);
    }
  }

  lemma {:induction false} EscapeAppend(a: string, b: string)
    ensures EscapeQuotes(a + b) == EscapeQuotes(a) + EscapeQuotes(b)
  {
    if a != [] {
      assert (a + b)[1..] == a[1..] + b;
      EscapeAppend(a[1..], b);
    } else {
      assert a + b == b;
    }
  }

  // ---------------------------------------------------------------------------
  // The encoder

  /** `stringifyJsonWithEscapedQuotes`, applied to the JSON text. */
  function Encode(json: string): string
  {
    EscapeQuotes(UnquoteTypes(json))
  }

  /** The encoder's output decodes to the rewritten text, every quote in it
      is escaped, it holds one backslash more per remaining quote, and the
      remaining quotes are the input's minus two per match. */
  lemma EncodeProperties(json: string)
    ensures Unescape(Encode(json)) == UnquoteTypes(json)
    ensures var e := Encode(json);
      forall i :: 0 <= i < |e| && e[i] == '"' ==> 0 < i && e[i - 1] == '\\'
    ensures |Encode(json)| == |UnquoteTypes(json)| + Count(UnquoteTypes(json), '"')
    ensures Count(Encode(json), '"') == Count(json, '"') - 2 * MatchCount(Scan(json))
  {
    var m := UnquoteTypes(json);
    UnescapeEscapeQuotes(m);
    EscapedQuotesArePreceded(m);
    EscapeLength(m);
    EscapeCounts(m, '"');
    UnquoteTypesQuoteCount(json);
  }

  /** The example text `{"type":"banner"}`. */
  const BannerJson: string := "{\"type\":\"banner\"}"

  lemma BannerJsonPieces()
    ensures BannerJson == "{" + (TypeOpen + "banner" + "\"") + "}"
  {
  }

  lemma BannerScan()
    ensures Scan(BannerJson) == [Lit('{'), TypeValue("banner"), Lit('}')]
  {
    var segs := [Lit('{'), TypeValue("banner"), Lit('}')];
    assert Original(segs[2..]) == "}";
    assert Original(segs[1..]) == (TypeOpen + "banner" + "\"") + "}";
    BannerJsonPieces();
    assert Original(segs) == BannerJson;
    assert !MatchAt(BannerJson) by { assert BannerJson[0] != TypeOpen[0]; }
    assert !MatchAt("}");
    assert '"' !in "banner";
    assert Canonical(segs[2..]);
    assert Canonical(segs[1..]);
    assert Canonical(segs);
    ScanUnique(BannerJson, segs);
  }

  lemma UpperBanner()
    ensures UpperCase("banner") == "BANNER"
  {
  }

  lemma RewrittenBannerSegments()
    ensures Rewritten([Lit('{'), TypeValue("banner"), Lit('}')]) == "{" + TypeKey + "BANNER" + "}"
  {
    var segs := [Lit('{'), TypeValue("banner"), Lit('}')];
    UpperBanner();
    assert Rewritten(segs[2..]) == "}";
    assert Rewritten(segs[1..]) == TypeKey + "BANNER" + "}";
  }

  lemma BannerRewrite()
    ensures UnquoteTypes(BannerJson) == "{" + TypeKey + "BANNER" + "}"
  {
    BannerScan();
    RewrittenBannerSegments();
  }

  /** The expected output `{\"type\":BANNER}`, piece by piece. */
  lemma BannerOutputPieces()
    ensures "{" + "\\\"type\\\":" + "BANNER" + "}" == "{\\\"type\\\":BANNER}"
  {
  }

  lemma EscapeBannerRewrite()
    ensures EscapeQuotes("{" + TypeKey + "BANNER" + "}") == "{" + "\\\"type\\\":" + "BANNER" + "}"
  {
    EscapeAppend("{" + TypeKey + "BANNER", "}");
    EscapeAppend("{" + TypeKey, "BANNER");
    EscapeAppend("{", TypeKey);
    EscapeWithoutQuotes("BANNER");
    EscapeWithoutQuotes("{");
    EscapeWithoutQuotes("}");
    EscapeKey();
  }

  /** `{"type":"banner"}` encodes to `{\"type\":BANNER}`. */
  lemma EncodeExample()
    ensures Encode(BannerJson) == "{\\\"type\\\":BANNER}"
  {
    BannerRewrite();
    EscapeBannerRewrite();
    BannerOutputPieces();
  }

  lemma EscapeKey()
    ensures EscapeQuotes(TypeKey) == "\\\"type\\\":"
  {
    assert TypeKey == "\"" + ("type" + ("\"" + ":"));
    assert "\\\"type\\\":" == "\\\"" + ("type" + ("\\\"" + ":"));
    EscapeAppend("\"", "type" + ("\"" + ":"));
    EscapeAppend("type", "\"" + ":");
    EscapeAppend("\"", ":");
    EscapeWithoutQuotes("type");
    EscapeWithoutQuotes(":");
  }
}
