/** The cache-busting rewriter of update-version.js.
 *
 *  The tool rewrites two query-string versions in an HTML text: every match of
 *  the regular expression `styles\.css\?v=[a-z0-9]+` becomes `styles.css?v=` plus
 *  a fresh CSS token, then every match of `script\.js\?v=[a-z0-9]+` in the result
 *  becomes `script.js?v=` plus a fresh JS token. Both are JavaScript global
 *  `replace` calls: matches are searched left to right, each match is greedy and
 *  non-empty, and after a match the search resumes behind it.
 *
 *  The file I/O around the rewrite and the random token source are not part of
 *  the model: the text and the two tokens are parameters.
 */
module CacheBust {

  /** The literal part of the stylesheet pattern. */
  const CssPrefix: string := "styles.css?v="
  /** The literal part of the script pattern. */
  const JsPrefix: string := "script.js?v="

  /** The character class `[a-z0-9]`. */
  predicate IsTokenChar(c: char) {
    'a' <= c <= 'z' || '0' <= c <= '9'
  }

  predicate IsToken(s: string) {
    forall k :: 0 <= k < |s| ==> IsTokenChar(s[k])
  }

  /** What the token generator can produce: at most 8 characters of base 36.
   *  It may be shorter than 8, or even empty. */
  predicate IsVersionToken(t: string) {
    |t| <= 8 && IsToken(t)
  }

  /** The longest run of token characters at the start of `s`: what the greedy
   *  `[a-z0-9]+` consumes. */
  function LeadingRun(s: string): (run: string)
    ensures run <= s && IsToken(run)
    ensures |run| == |s| || !IsTokenChar(s[|run|])
  {
    if s != [] && IsTokenChar(s[0]) then [s[0]] + LeadingRun(s[1..]) else []
  }

  /** The pattern `prefix[a-z0-9]+` matches at the start of `s`. */
  predicate StartsMatch(s: string, prefix: string) {
    |prefix| < |s| && prefix <= s && IsTokenChar(s[|prefix|])
  }

  /** One global `replace` pass: a left-to-right scan that, where the pattern
   *  matches, writes `prefix + token` and skips the whole greedy run, and
   *  elsewhere copies one character and moves on. */
  function ReplaceAll(s: string, prefix: string, token: string): (r: string)
    ensures forall c :: c in r ==> c in s || c in token
    decreases |s|
  {
    if s == [] then []
    else if StartsMatch(s, prefix) then
      var run := LeadingRun(s[|prefix|..]);
      var rest := s[|prefix| + |run|..];
      assert forall c :: c in prefix ==> c in s by {
        forall c | c in prefix ensures c in s {
          var k :| 0 <= k < |prefix| && prefix[k] == c;
          assert s[k] == c;
        }
      }
      assert forall c :: c in rest ==> c in s by {
        forall c | c in rest ensures c in s {
          var k :| 0 <= k < |rest| && rest[k] == c;
          assert s[|prefix| + |run| + k] == c;
        }
      }
      prefix + token + ReplaceAll(rest, prefix, token)
    else
      assert forall c :: c in s[1..] ==> c in s by {
        forall c | c in s[1..] ensures c in s {
          var k :| 0 <= k < |s[1..]| && s[1..][k] == c;
          assert s[k + 1] == c;
        }
      }
      [s[0]] + ReplaceAll(s[1..], prefix, token)
  }

  /** The whole rewrite of update-version.js: the CSS pass, then the JS pass on
   *  the output of the CSS pass. */
  function UpdateVersions(html: string, cssVersion: string, jsVersion: string): (out: string)
    requires IsVersionToken(cssVersion) && IsVersionToken(jsVersion)
    ensures forall c :: c in out ==> c in html || c in cssVersion || c in jsVersion
    ensures forall c :: c in out && !IsTokenChar(c) ==> c in html
  {
    ReplaceAll(ReplaceAll(html, CssPrefix, cssVersion), JsPrefix, jsVersion)
  }

  // ---------------------------------------------------------------------------
  // A declarative account of one pass: the text cut into segments.

  /** A piece of the text as one pass sees it: a character it copies, or a match
   *  `prefix + run` whose greedy run it replaces. */
  datatype Segment = Lit(c: char) | Hit(run: string)

  /** `segs` is how a pass cuts `s`: a literal character stands where the
   *  pattern does not match, and a hit is the pattern's prefix followed by a
   *  non-empty run of token characters that is not followed by another one. */
  ghost predicate IsScan(segs: seq<Segment>, s: string, prefix: string)
    decreases |s|
  {
    if segs == [] then s == []
    else match segs[0]
      case Lit(c) =>
        s != [] && s[0] == c && !StartsMatch(s, prefix) && IsScan(segs[1..], s[1..], prefix)
      case Hit(run) =>
        run != [] && IsToken(run) && prefix + run <= s &&
        (|prefix + run| == |s| || !IsTokenChar(s[|prefix + run|])) &&
        IsScan(segs[1..], s[|prefix + run|..], prefix)
  }

  /** The text a list of segments stands for. */
  function Flatten(segs: seq<Segment>, prefix: string): string
  {
    if segs == [] then []
    else match segs[0]
      case Lit(c) => [c] + Flatten(segs[1..], prefix)
      case Hit(run) => prefix + run + Flatten(segs[1..], prefix)
  }

  /** The same segments with every run replaced by one token. */
  function Retoken(segs: seq<Segment>, token: string): (r: seq<Segment>)
    ensures |r| == |segs|
    ensures forall k :: 0 <= k < |segs| ==>
      r[k] == (if segs[k].Lit? then segs[k] else Hit(token))
  {
    if segs == [] then [] else
      (if segs[0].Lit? then [segs[0]] else [Hit(token)]) + Retoken(segs[1..], token)
  }

  /** Flattening a retokened list, one segment at a time. */
  lemma FlattenRetokenCons(segs: seq<Segment>, prefix: string, token: string)
    requires segs != []
    ensures Flatten(Retoken(segs, token), prefix) ==
      (if segs[0].Lit? then [segs[0].c] else prefix + token) + Flatten(Retoken(segs[1..], token), prefix)
  {
    var r := Retoken(segs, token);
    assert r[1..] == Retoken(segs[1..], token);
  }

  /** Every text can be cut; this is the cut a pass makes. */
  ghost function Segments(s: string, prefix: string): (segs: seq<Segment>)
    ensures IsScan(segs, s, prefix)
    decreases |s|
  {
    if s == [] then []
    else if StartsMatch(s, prefix) then
      var run := LeadingRun(s[|prefix|..]);
      [Hit(run)] + Segments(s[|prefix| + |run|..], prefix)
    else [Lit(s[0])] + Segments(s[1..], prefix)
  }

  /** A cut covers the text exactly: its segments, in order, spell the input. */
  lemma {:induction false} ScanCovers(segs: seq<Segment>, s: string, prefix: string)
    requires IsScan(segs, s, prefix)
    ensures Flatten(segs, prefix) == s
    decreases |s|
  {
    if segs != [] {
      match segs[0]
      case Lit(c) =>
        ScanCovers(segs[1..], s[1..], prefix);
        assert s == [c] + s[1..];
      case Hit(run) =>
        var n := |prefix + run|;
        ScanCovers(segs[1..], s[n..], prefix);
        assert s == s[..n] + s[n..];
    }
  }

  /** Two greedy runs starting at the same place are the same run. */
  lemma MaximalRunUnique(r1: string, r2: string, s: string)
    requires r1 <= s && IsToken(r1) && (|r1| == |s| || !IsTokenChar(s[|r1|]))
    requires r2 <= s && IsToken(r2) && (|r2| == |s| || !IsTokenChar(s[|r2|]))
    ensures r1 == r2
  {
  }

  /** There is only one way to cut a text. */
  lemma {:induction false} ScanUnique(a: seq<Segment>, b: seq<Segment>, s: string, prefix: string)
    requires IsScan(a, s, prefix) && IsScan(b, s, prefix)
    ensures a == b
    decreases |s|
  {
    if a != [] && b != [] {
      match a[0]
      case Lit(c) =>
        assert b[0].Lit?;
        ScanUnique(a[1..], b[1..], s[1..], prefix);
        assert a == [a[0]] + a[1..] && b == [b[0]] + b[1..];
      case Hit(r1) =>
        assert StartsMatch(s, prefix) by { assert s[|prefix|] == r1[0]; }
        var r2 := b[0].run;
        var rest := s[|prefix|..];
        assert r1 <= rest && r2 <= rest by {
          assert (prefix + r1)[|prefix|..] == r1;
          assert (prefix + r2)[|prefix|..] == r2;
        }
        MaximalRunUnique(r1, r2, rest);
        ScanUnique(a[1..], b[1..], s[|prefix + r1|..], prefix);
        assert a == [a[0]] + a[1..] && b == [b[0]] + b[1..];
    }
  }

  /** A pass replaces the run of every hit of the cut by the token and copies
   *  every literal character, in order. */
  lemma {:induction false} ReplaceAllByScan(segs: seq<Segment>, s: string, prefix: string, token: string)
    requires IsScan(segs, s, prefix)
    ensures ReplaceAll(s, prefix, token) == Flatten(Retoken(segs, token), prefix)
    decreases |s|
  {
    if segs != [] {
      match segs[0]
      case Lit(c) =>
        ReplaceAllByScan(segs[1..], s[1..], prefix, token);
        FlattenRetokenCons(segs, prefix, token);
        assert ReplaceAll(s, prefix, token) == [c] + ReplaceAll(s[1..], prefix, token);
      case Hit(run) =>
        assert StartsMatch(s, prefix) by { assert s[|prefix|] == run[0]; }
        var rest := s[|prefix|..];
        assert run <= rest by { assert (prefix + run)[|prefix|..] == run; }
        MaximalRunUnique(run, LeadingRun(rest), rest);
        ReplaceAllByScan(segs[1..], s[|prefix + run|..], prefix, token);
        FlattenRetokenCons(segs, prefix, token);
        assert ReplaceAll(s, prefix, token) == prefix + token + ReplaceAll(s[|prefix + run|..], prefix, token);
    }
  }

  /** One pass, described by its cut: the input is the concatenation of the
   *  segments and the output the same concatenation with each run replaced by
   *  the one token. */
  lemma {:induction false} PassReplacesRuns(s: string, prefix: string, token: string)
    ensures var segs := Segments(s, prefix);
      Flatten(segs, prefix) == s &&
      ReplaceAll(s, prefix, token) == Flatten(Retoken(segs, token), prefix)
  {
    ScanCovers(Segments(s, prefix), s, prefix);
    ReplaceAllByScan(Segments(s, prefix), s, prefix, token);
  }

  // ---------------------------------------------------------------------------
  // Where the pattern does not match, nothing changes.

  /** The pattern matches nowhere in `s`. */
  predicate NoMatch(s: string, prefix: string) {
    forall k :: 0 <= k < |s| ==> !StartsMatch(s[k..], prefix)
  }

  lemma {:induction false} NoMatchUnchanged(s: string, prefix: string, token: string)
    requires NoMatch(s, prefix)
    ensures ReplaceAll(s, prefix, token) == s
    decreases |s|
  {
    if s != [] {
      assert s[0..] == s;
      assert NoMatch(s[1..], prefix) by {
        forall k | 0 <= k < |s[1..]| ensures !StartsMatch(s[1..][k..], prefix) {
          assert s[1..][k..] == s[k + 1..];
        }
      }
      NoMatchUnchanged(s[1..], prefix, token);
    }
  }

  /** Text holding neither pattern comes out of the rewrite unchanged. */
  lemma NeitherPatternUnchanged(html: string, cssVersion: string, jsVersion: string)
    requires IsVersionToken(cssVersion) && IsVersionToken(jsVersion)
    requires NoMatch(html, CssPrefix) && NoMatch(html, JsPrefix)
    ensures UpdateVersions(html, cssVersion, jsVersion) == html
  {
    NoMatchUnchanged(html, CssPrefix, cssVersion);
    NoMatchUnchanged(html, JsPrefix, jsVersion);
  }

  /** A match whose run is followed by a non-token character, or by nothing, is
   *  written as the prefix and the token, and the scan carries on behind it. */
  lemma MatchReplaced(prefix: string, run: string, rest: string, token: string)
    requires run != [] && IsToken(run)
    requires rest == [] || !IsTokenChar(rest[0])
    ensures ReplaceAll(prefix + run + rest, prefix, token) == prefix + token + ReplaceAll(rest, prefix, token)
  {
    var s := prefix + run + rest;
    assert StartsMatch(s, prefix) by { assert s[|prefix|] == run[0]; }
    assert s[|prefix|..] == run + rest;
    MaximalRunUnique(run, LeadingRun(run + rest), run + rest);
    assert s[|prefix| + |run|..] == rest;
  }

  /** Characters at which no match starts are copied one by one. */
  lemma {:induction false} CopyUntilMatch(a: string, b: string, prefix: string, token: string)
    requires forall k :: 0 <= k < |a| ==> !StartsMatch((a + b)[k..], prefix)
    ensures ReplaceAll(a + b, prefix, token) == a + ReplaceAll(b, prefix, token)
    decreases |a|
  {
    if a != [] {
      assert (a + b)[0..] == a + b;
      assert (a + b)[1..] == a[1..] + b;
      forall k | 0 <= k < |a[1..]| ensures !StartsMatch((a[1..] + b)[k..], prefix) {
        assert (a[1..] + b)[k..] == (a + b)[k + 1..];
      }
      CopyUntilMatch(a[1..], b, prefix, token);
      assert !StartsMatch(a + b, prefix);
      calc {
        ReplaceAll(a + b, prefix, token);
        [(a + b)[0]] + ReplaceAll((a + b)[1..], prefix, token);
        [a[0]] + (a[1..] + ReplaceAll(b, prefix, token));
        { assert a == [a[0]] + a[1..]; }
        a + ReplaceAll(b, prefix, token);
      }
    } else {
      assert a + b == b;
    }
  }

  /** No proper suffix of `prefix` is also a prefix of it, so two occurrences
   *  of it cannot overlap. */
  predicate SelfOverlapFree(prefix: string) {
    forall k :: 0 < k < |prefix| ==> !(prefix[k..] <= prefix)
  }

  /** A pattern prefix whose last character occurs nowhere else in it cannot
   *  overlap itself. */
  lemma LastCharUniqueOverlapFree(prefix: string)
    requires prefix != [] && prefix[|prefix| - 1] !in prefix[..|prefix| - 1]
    ensures SelfOverlapFree(prefix)
  {
    var n := |prefix|;
    forall k | 0 < k < n ensures !(prefix[k..] <= prefix) {
      assert prefix[k..][n - 1 - k] == prefix[n - 1];
      assert prefix[n - 1 - k] == prefix[..n - 1][n - 1 - k];
    }
  }

  /** Both prefixes end in their only `=`. */
  lemma PrefixesOverlapFree()
    ensures SelfOverlapFree(CssPrefix) && SelfOverlapFree(JsPrefix)
  {
    assert CssPrefix[..|CssPrefix| - 1] == "styles.css?v";
    assert JsPrefix[..|JsPrefix| - 1] == "script.js?v";
    LastCharUniqueOverlapFree(CssPrefix);
    LastCharUniqueOverlapFree(JsPrefix);
  }

  /** An occurrence of the prefix that is not followed by a token character (an
   *  empty version, an upper-case one, the end of the text) is copied as it
   *  is. */
  lemma PrefixWithoutTokenKept(prefix: string, rest: string, token: string)
    requires SelfOverlapFree(prefix)
    requires rest == [] || !IsTokenChar(rest[0])
    ensures ReplaceAll(prefix + rest, prefix, token) == prefix + ReplaceAll(rest, prefix, token)
  {
    var s := prefix + rest;
    forall k | 0 <= k < |prefix| ensures !StartsMatch(s[k..], prefix) {
      assert s[k..] == prefix[k..] + rest;
      if k == 0 {
        assert rest != [] ==> s[|prefix|] == rest[0];
      } else {
        assert !(prefix[k..] <= prefix);
        assert |prefix[k..]| < |prefix|;
        assert s[k..][..|prefix| - k] == prefix[k..];
        assert prefix[..|prefix| - k] != prefix[k..];
      }
    }
    CopyUntilMatch(prefix, rest, prefix, token);
  }

  /** The CSS pass on a script reference followed by a stylesheet reference:
   *  the script text is copied and the stylesheet run replaced. */
  lemma CssPassAfterScriptReference(token: string)
    ensures ReplaceAll(JsPrefix + CssPrefix + "1", CssPrefix, token) == JsPrefix + CssPrefix + token
  {
    var x := JsPrefix + (CssPrefix + "1");
    forall k | 0 <= k < |JsPrefix| ensures !StartsMatch(x[k..], CssPrefix) {
      assert x[k..][..13] == x[k..k + 13];
      assert x[k..k + 13] != CssPrefix by {
        assert x[k..k + 13][12] == x[k + 12];
        assert x[k..k + 13][0] == x[k];
      }
    }
    CopyUntilMatch(JsPrefix, CssPrefix + "1", CssPrefix, token);
    MatchReplaced(CssPrefix, "1", [], token);
    assert CssPrefix + "1" + [] == CssPrefix + "1";
    assert ReplaceAll([], CssPrefix, token) == [];
    assert JsPrefix + CssPrefix + "1" == x;
  }

  /** The stylesheet prefix opens with six token characters. */
  lemma CssPrefixOpensWithStyles()
    ensures CssPrefix == "styles" + ".css?v=" && IsToken("styles")
  {
  }

  /** The JS pass on a script reference whose run is `styles`: the run is
   *  replaced, and the scan carries on behind it. */
  lemma JsPassTakesStyles(rest: string, token: string)
    requires rest != [] && !IsTokenChar(rest[0])
    ensures ReplaceAll(JsPrefix + "styles" + rest, JsPrefix, token) == JsPrefix + token + ReplaceAll(rest, JsPrefix, token)
  {
    CssPrefixOpensWithStyles();
    MatchReplaced(JsPrefix, "styles", rest, token);
  }

  /** The tail of a stylesheet reference, with a version of at most 8
   *  characters, holds no script reference. */
  lemma StylesheetTailNoScript(version: string)
    requires |version| <= 8
    ensures NoMatch(".css?v=" + version, JsPrefix)
  {
    var x := ".css?v=" + version;
    forall k | 0 <= k < |x| ensures !StartsMatch(x[k..], JsPrefix) {
      if |JsPrefix| < |x[k..]| {
        assert x[k..][0] == x[k] && x[k..][1] == x[k + 1];
      }
    }
  }

  /** What the JS pass leaves of the stylesheet reference no longer matches the
   *  CSS pattern, whatever version it carries. */
  lemma CssPassFindsNoReference(version: string, token: string)
    requires IsVersionToken(version)
    ensures ReplaceAll(JsPrefix + "b.css?v=" + version, CssPrefix, token) == JsPrefix + "b.css?v=" + version
  {
    var x := JsPrefix + "b.css?v=" + version;
    assert x[..20] == "script.js?v=b.css?v=";
    forall k | 0 <= k < |x| ensures !StartsMatch(x[k..], CssPrefix) {
      if k + 13 < |x| {
        assert x[k..][..13] == x[k..k + 13];
        assert x[k..k + 13] != CssPrefix by {
          assert x[k..k + 13][12] == x[k + 12];
          assert x[k..k + 13][0] == x[k];
          if k + 12 >= 20 {
            assert x[k + 12] == version[k - 8];
          } else {
            assert x[k + 12] == x[..20][k + 12];
          }
          if k < 20 {
            assert x[k] == x[..20][k];
          }
        }
      }
    }
    NoMatchUnchanged(x, CssPrefix, token);
  }

  /** The rewrite as update-version.js orders it, on a script reference
   *  directly followed by a stylesheet reference: the CSS pass writes its
   *  token, then the greedy script run swallows `styles`. */
  lemma CssThenJs(cssVersion: string, jsVersion: string)
    requires IsVersionToken(cssVersion) && IsVersionToken(jsVersion)
    ensures UpdateVersions(JsPrefix + CssPrefix + "1", cssVersion, jsVersion)
         == JsPrefix + jsVersion + ".css?v=" + cssVersion
  {
    var html := JsPrefix + CssPrefix + "1";
    var tail := ".css?v=" + cssVersion;
    var afterCss := ReplaceAll(html, CssPrefix, cssVersion);
    assert afterCss == JsPrefix + "styles" + tail by {
      CssPrefixOpensWithStyles();
      CssPassAfterScriptReference(cssVersion);
    }
    JsPassTakesStyles(tail, jsVersion);
    StylesheetTailNoScript(cssVersion);
    NoMatchUnchanged(tail, JsPrefix, jsVersion);
    assert ReplaceAll(afterCss, JsPrefix, jsVersion) == JsPrefix + jsVersion + tail;
  }

  /** The other order on the same text: the script run swallows `styles` first,
   *  and the CSS pass then finds no reference. */
  lemma JsThenCss()
    ensures ReplaceAll(ReplaceAll(JsPrefix + CssPrefix + "1", JsPrefix, "b"), CssPrefix, "a")
         == JsPrefix + "b.css?v=1"
  {
    var html := JsPrefix + CssPrefix + "1";
    CssPrefixOpensWithStyles();
    assert html == JsPrefix + "styles" + ".css?v=1";
    JsPassTakesStyles(".css?v=1", "b");
    StylesheetTailNoScript("1");
    NoMatchUnchanged(".css?v=1", JsPrefix, "b");
    assert ReplaceAll(html, JsPrefix, "b") == JsPrefix + "b.css?v=" + "1";
    CssPassFindsNoReference("1", "a");
  }

  /** The two passes do not commute, so the order in which update-version.js
   *  runs them is visible in its output. */
  lemma PassOrderObservable()
    ensures UpdateVersions(JsPrefix + CssPrefix + "1", "a", "b")
         != ReplaceAll(ReplaceAll(JsPrefix + CssPrefix + "1", JsPrefix, "b"), CssPrefix, "a")
  {
    assert IsVersionToken("a") && IsVersionToken("b");
    CssThenJs("a", "b");
    JsThenCss();
    var x := JsPrefix + "b" + ".css?v=" + "a";
    var y := JsPrefix + "b.css?v=1";
    assert x[|x| - 1] != y[|y| - 1];
  }

  /** The rewrite on what a first run left of that text: the CSS pass finds no
   *  stylesheet reference, and the JS pass replaces the script version only. */
  lemma RewriteAfterSwallow(version: string, cssVersion: string, jsVersion: string)
    requires IsVersionToken(version)
    requires IsVersionToken(cssVersion) && IsVersionToken(jsVersion)
    ensures UpdateVersions(JsPrefix + "b.css?v=" + version, cssVersion, jsVersion)
         == JsPrefix + jsVersion + ".css?v=" + version
  {
    var x := JsPrefix + "b.css?v=" + version;
    var tail := ".css?v=" + version;
    CssPassFindsNoReference(version, cssVersion);
    assert x == JsPrefix + "b" + tail;
    MatchReplaced(JsPrefix, "b", tail, jsVersion);
    StylesheetTailNoScript(version);
    NoMatchUnchanged(tail, JsPrefix, jsVersion);
  }

  /** Running the whole rewrite a second time, on the text of `CssThenJs`:
   *  the script reference's version is now `b` and the stylesheet reference
   *  has lost its `styles`, so the second run's CSS pass finds nothing and the
   *  stylesheet version stays `a`. */
  lemma RewriteRerunKeepsStaleVersion()
    ensures UpdateVersions(UpdateVersions(JsPrefix + CssPrefix + "1", "a", "b"), "c", "d")
         == JsPrefix + "d.css?v=a"
  {
    assert IsVersionToken("a") && IsVersionToken("b");
    assert IsVersionToken("c") && IsVersionToken("d");
    CssThenJs("a", "b");
    assert JsPrefix + "b" + ".css?v=" + "a" == JsPrefix + "b.css?v=" + "a";
    RewriteAfterSwallow("a", "c", "d");
    assert JsPrefix + "d" + ".css?v=" + "a" == JsPrefix + "d.css?v=a";
  }

  /** Two runs of the rewrite are not one run with the second pair of tokens.
   *  A single pass does survive a rerun (`RerunReplacesToken`); the two passes
   *  together do not. */
  lemma RewriteRerunDiffers()
    ensures UpdateVersions(UpdateVersions(JsPrefix + CssPrefix + "1", "a", "b"), "c", "d")
         != UpdateVersions(JsPrefix + CssPrefix + "1", "c", "d")
  {
    RewriteRerunKeepsStaleVersion();
    assert IsVersionToken("c") && IsVersionToken("d");
    CssThenJs("c", "d");
    var twice := JsPrefix + "d.css?v=a";
    var once := JsPrefix + "d" + ".css?v=" + "c";
    assert twice[|twice| - 1] != once[|once| - 1];
  }

  // ---------------------------------------------------------------------------
  // The rewritten regions still match: running again finds the same places.

  /** `x` and `y` are equal, or both have at least `m` characters and agree on
   *  their first `m`. */
  predicate AgreeUpTo(x: string, y: string, m: nat) {
    x == y || (m <= |x| && m <= |y| && x[..m] == y[..m])
  }

  /** Whether the pattern matches at the start depends only on the first
   *  `|prefix| + 1` characters. */
  lemma MatchWindow(x: string, y: string, prefix: string)
    requires AgreeUpTo(x, y, |prefix| + 1)
    ensures StartsMatch(x, prefix) == StartsMatch(y, prefix)
  {
    if x != y {
      assert x[..|prefix|] == x[..|prefix| + 1][..|prefix|];
      assert y[..|prefix|] == y[..|prefix| + 1][..|prefix|];
      assert x[|prefix|] == x[..|prefix| + 1][|prefix|];
      assert y[|prefix|] == y[..|prefix| + 1][|prefix|];
    }
  }

  /** A text that opens with a literal character reads the same before and
   *  after retokening at least as far as the prefix of its first hit, which is
   *  one character past a window of the pattern's prefix length. */
  lemma {:induction false} LitHeadAgrees(segs: seq<Segment>, prefix: string, token: string)
    requires segs != [] && segs[0].Lit?
    ensures AgreeUpTo(Flatten(segs, prefix), Flatten(Retoken(segs, token), prefix), |prefix| + 1)
  {
    var c := segs[0].c;
    var rest := segs[1..];
    var s' := Flatten(rest, prefix);
    var o' := Flatten(Retoken(rest, token), prefix);
    assert Retoken(segs, token)[1..] == Retoken(rest, token);
    assert Flatten(segs, prefix) == [c] + s';
    assert Flatten(Retoken(segs, token), prefix) == [c] + o';
    if rest == [] {
    } else if rest[0].Lit? {
      LitHeadAgrees(rest, prefix, token);
      if s' != o' {
        assert ([c] + s')[..|prefix| + 1] == [c] + s'[..|prefix|];
        assert ([c] + o')[..|prefix| + 1] == [c] + o'[..|prefix|];
        assert s'[..|prefix|] == s'[..|prefix| + 1][..|prefix|];
        assert o'[..|prefix|] == o'[..|prefix| + 1][..|prefix|];
      }
    } else {
      assert Retoken(rest, token)[1..] == Retoken(rest[1..], token);
      assert s' == prefix + rest[0].run + Flatten(rest[1..], prefix);
      assert o' == prefix + token + Flatten(Retoken(rest[1..], token), prefix);
      assert ([c] + s')[..|prefix| + 1] == [c] + prefix;
      assert ([c] + o')[..|prefix| + 1] == [c] + prefix;
    }
  }

  /** The first character of a retokened text is the first character of the
   *  original, unless the text opens with a run. */
  lemma FlattenRetokenHead(segs: seq<Segment>, prefix: string, token: string)
    requires forall k :: 0 <= k < |segs| ==> segs[k].Hit? ==> segs[k].run != []
    requires token != []
    requires segs != [] && (segs[0].Lit? || prefix != [])
    ensures Flatten(segs, prefix) != [] && Flatten(Retoken(segs, token), prefix) != []
    ensures Flatten(segs, prefix)[0] == Flatten(Retoken(segs, token), prefix)[0]
  {
    assert Retoken(segs, token) == [Retoken(segs, token)[0]] + Retoken(segs[1..], token);
  }

  /** The hits of a cut carry non-empty runs. */
  lemma {:induction false} ScanRunsNonEmpty(segs: seq<Segment>, s: string, prefix: string)
    requires IsScan(segs, s, prefix)
    ensures forall k :: 0 <= k < |segs| ==> segs[k].Hit? ==> segs[k].run != []
    decreases |s|
  {
    if segs != [] {
      match segs[0]
      case Lit(c) => ScanRunsNonEmpty(segs[1..], s[1..], prefix);
      case Hit(run) => ScanRunsNonEmpty(segs[1..], s[|prefix + run|..], prefix);
      forall k | 0 < k < |segs| ensures segs[k].Hit? ==> segs[k].run != [] {
        assert segs[k] == segs[1..][k - 1];
      }
    }
  }

  /** After one pass with a non-empty token, the output is cut the same way as
   *  the input, with every run now equal to the token: each written region is
   *  a maximal match of the pattern, and no new match appears. */
  lemma {:induction false} RescanFindsToken(segs: seq<Segment>, s: string, prefix: string, token: string)
    requires IsScan(segs, s, prefix)
    requires token != [] && IsToken(token)
    ensures IsScan(Retoken(segs, token), Flatten(Retoken(segs, token), prefix), prefix)
    decreases |s|
  {
    if segs != [] {
      var r := Retoken(segs, token);
      var o := Flatten(r, prefix);
      var rest := segs[1..];
      var o' := Flatten(Retoken(rest, token), prefix);
      ScanRunsNonEmpty(segs, s, prefix);
      ScanCovers(segs, s, prefix);
      assert r[1..] == Retoken(rest, token);
      match segs[0]
      case Lit(c) =>
        RescanFindsToken(rest, s[1..], prefix, token);
        assert o == [c] + o';
        LitHeadAgrees(segs, prefix, token);
        MatchWindow(s, o, prefix);
      case Hit(run) =>
        var s' := s[|prefix + run|..];
        RescanFindsToken(rest, s', prefix, token);
        assert o == prefix + token + o';
        assert o[|prefix + token|..] == o';
        if rest != [] {
          ScanCovers(rest, s', prefix);
          ScanRunsNonEmpty(rest, s', prefix);
          if rest[0].Hit? && prefix == [] {
            assert false;
          }
          FlattenRetokenHead(rest, prefix, token);
        }
    }
  }

  /** The pass's output is cut into the input's segments with every run
   *  replaced by the token. */
  lemma RescanSegments(s: string, prefix: string, token: string)
    requires token != [] && IsToken(token)
    ensures Segments(ReplaceAll(s, prefix, token), prefix) == Retoken(Segments(s, prefix), token)
  {
    var segs := Segments(s, prefix);
    ReplaceAllByScan(segs, s, prefix, token);
    RescanFindsToken(segs, s, prefix, token);
    ScanUnique(Segments(ReplaceAll(s, prefix, token), prefix), Retoken(segs, token),
      ReplaceAll(s, prefix, token), prefix);
  }

  /** Retokening twice keeps only the second token. */
  lemma RetokenTwice(segs: seq<Segment>, t1: string, t2: string)
    ensures Retoken(Retoken(segs, t1), t2) == Retoken(segs, t2)
  {
  }

  /** Running the pass again with a new token gives what one run with that token
   *  gives: the structure survives, only the version value changes. */
  lemma RerunReplacesToken(s: string, prefix: string, t1: string, t2: string)
    requires t1 != [] && IsToken(t1)
    ensures ReplaceAll(ReplaceAll(s, prefix, t1), prefix, t2) == ReplaceAll(s, prefix, t2)
  {
    var segs := Segments(s, prefix);
    var once := ReplaceAll(s, prefix, t1);
    RescanSegments(s, prefix, t1);
    ReplaceAllByScan(Segments(once, prefix), once, prefix, t2);
    RetokenTwice(segs, t1, t2);
    ReplaceAllByScan(segs, s, prefix, t2);
  }
}
