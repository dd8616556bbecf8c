# Portfolio site: cache-busting rewriter and page-script rules

This project models two files of a single-page portfolio site in Dafny and
proves properties of the model.

- `update-version.js` is a build-time helper. It rewrites the version query
  strings of `styles.css` and `script.js` in `index.html` so that browsers fetch
  fresh copies. The core of it is two JavaScript global `replace` calls. The
  CSS pass runs first. The JS pass then runs on the CSS pass's output.
  Module `CacheBust` (`cache_bust.dfy`) models one pass as `ReplaceAll`. This
  is a recursive left-to-right scan over the text. Where the literal prefix is
  followed by a lowercase letter or digit, the scan writes the prefix and the
  token and skips the whole greedy run. Anywhere else it copies one character.
  `UpdateVersions` chains the two passes. A declarative partner,
  `IsScan`, describes how a pass cuts the text into literal characters and
  maximal matches. The lemmas tie the scan to this cut and prove these facts
  about it:
  - the cut exists and is unique;
  - the input is the concatenation of its segments;
  - the output is the same concatenation, with every run replaced by the one
    token;
  - a pass with a non-empty token leaves the cut intact, so a second run of
    that pass finds the same places;
  - the whole two-pass rewrite does not survive a second run in the same way:
    on some texts a stylesheet version stays stale;
  - text without matches is unchanged;
  - the order of the two passes can be observed.
- `script.js` is the page's browser script. Module `PortfolioScript`
  (`portfolio_script.dfy`) models the rules it decides for itself:
  - how a statistic's text splits into the number to count up to and its
    suffix, and when a counter starts;
  - the background hue counter: a class with a `Tick` method and its
    modulo-360 invariant;
  - the staggered `index * 200` ms start times: a method with a loop;
  - the anchor-link scroll target;
  - the scroll thresholds of the header and the scroll-to-top button: pure
    rules plus the handlers that write the element styles;
  - the lazy-image source fallback.

File I/O, console output and the random token generator are not modelled. The
HTML text and the two tokens are parameters of `UpdateVersions`. Its
precondition requires each token to be what the generator can produce: at most
8 characters from `0-9a-z`.

Where the intent and the code differ, the model follows the code:

- The generator `Math.random().toString(36).substring(2, 10)` can return
  fewer than 8 characters, or none. So the model does not assume 8-character
  tokens. It also does not assume that a new token differs from the old one.
- The structure survives a rerun only when the token is non-empty. An empty
  token leaves `styles.css?v=` without a version, and a later run no longer
  matches there. `RerunReplacesToken` therefore requires a non-empty token.
- A match can swallow part of the next reference. In
  `script.js?v=styles.css?v=1`, the greedy `[a-z0-9]+` of the script pattern
  consumes `styles`. Because of this, the order of the two passes can be
  observed (`PassOrderObservable`). Also, an occurrence that begins inside an
  earlier match's run is not replaced. The cut (`IsScan`) makes both points
  precise.
- Rerunning the tool does not always refresh both versions. The rerun
  property holds for each pass on its own (`RerunReplacesToken`), not for the
  two passes together. On `script.js?v=styles.css?v=1`, the first run leaves
  `script.js?v=b.css?v=a`. After that, the CSS pass finds no stylesheet
  reference, and a second run leaves the stylesheet version at `a`
  (`RewriteRerunKeepsStaleVersion`, `RewriteRerunDiffers`).

## Model

| member | source | states |
|---|---|---|
| `CacheBust.LeadingRun` | update-version.js:27 | The greedy `[a-z0-9]+`: the result is a prefix of the text made only of token characters, and the next character, if any, is not a token character. |
| `CacheBust.ReplaceAll` | update-version.js:26-29 | One global `replace` pass, given the pattern's literal prefix and the replacement token. It adds no character that is in neither the text nor the token. Its cut is described by `PassReplacesRuns` and `ReplaceAllByScan`. |
| `CacheBust.UpdateVersions` | update-version.js:22-35 | `updateVersions`: the CSS pass, then the JS pass on its output. Every character of the result is in the HTML or in one of the tokens, so every character outside `[a-z0-9]` comes from the HTML. Its behaviour on particular texts is stated by `NeitherPatternUnchanged`, `CssThenJs` and `RewriteRerunKeepsStaleVersion`. |
| `CacheBust.Segments` | update-version.js:26-29 | Every text has a cut into literal characters and maximal matches (`IsScan`), namely the one a pass makes. |
| `CacheBust.ScanCovers` | update-version.js:26-29 | The segments of a cut spell the input exactly, in order: nothing outside the matches is lost or reordered. |
| `CacheBust.ScanUnique` | update-version.js:27 | A text has only one cut. Leftmost, greedy and non-overlapping matching leaves no choice. |
| `CacheBust.ReplaceAllByScan` | update-version.js:26-29 | One pass writes each literal character of the cut unchanged and each match as prefix plus the token, in order. |
| `CacheBust.PassReplacesRuns` | update-version.js:26-35 | For any prefix and token, the input is the flattening of its cut, and the output is the same flattening with every run replaced by the single token. This holds for the CSS pass and the JS pass alike. |
| `CacheBust.MatchReplaced` | update-version.js:26-29 | A match whose run ends at a non-token character or at the end of the text becomes prefix plus token. Scanning resumes right after the consumed run, so the inserted text is not rescanned. |
| `CacheBust.CopyUntilMatch` | update-version.js:26-29 | Characters at which no match starts are copied unchanged, and the rest of the text is processed as if on its own. |
| `CacheBust.PrefixesOverlapFree` | update-version.js:27-33 | Neither `styles.css?v=` nor `script.js?v=` can overlap itself. |
| `CacheBust.PrefixWithoutTokenKept` | update-version.js:27-33 | An occurrence of the prefix that the scan reaches, with no lowercase letter or digit after it, is copied unchanged. Examples are an empty version, an upper-case version, or the end of the text. |
| `CacheBust.NoMatchUnchanged` | update-version.js:26-29 | A pass leaves text in which its pattern matches nowhere unchanged. |
| `CacheBust.NeitherPatternUnchanged` | update-version.js:26-35 | The whole rewrite returns text that holds neither pattern exactly as it was. |
| `CacheBust.RescanFindsToken` | update-version.js:26-29 | After a pass with a non-empty token, the output is cut like the input, with every run now the token. Each written region is a maximal match, and no new match appears. |
| `CacheBust.RescanSegments` | update-version.js:26-29 | The same fact in terms of the pass: the cut of the output is the cut of the input, retokened. |
| `CacheBust.RerunReplacesToken` | update-version.js:26-29 | Running one pass again with a new token gives the same text as a single run of that pass with that token, given a non-empty first token. This holds per pass and not for the whole rewrite (`RewriteRerunDiffers`). |
| `CacheBust.CssThenJs` | update-version.js:26-35 | On `script.js?v=styles.css?v=1` the rewrite first writes the CSS token. The JS pass then takes `styles` as the script's version. For any tokens `c` and `j` this gives `script.js?v=` + `j` + `.css?v=` + `c`. |
| `CacheBust.JsThenCss` | update-version.js:26-35 | In the other order, the JS pass takes `styles` first and the CSS pass then finds nothing, which gives `script.js?v=b.css?v=1`. |
| `CacheBust.PassOrderObservable` | update-version.js:26-35 | The two passes do not commute. The JS pass runs on the output of the CSS pass, and this order is visible in the result. |
| `CacheBust.JsPassTakesStyles` | update-version.js:32-35 | A script reference directly followed by `styles` and then a non-token character gets `styles` replaced as its version. The pass then carries on with the rest of the text. |
| `CacheBust.StylesheetTailNoScript` | update-version.js:32-35 | What follows `styles` in a stylesheet reference (`.css?v=` and a version of at most 8 characters) holds no script reference. |
| `CacheBust.CssPassAfterScriptReference` | update-version.js:26-29 | In `script.js?v=styles.css?v=1`, the CSS pass copies the script text and replaces the stylesheet version with any token. |
| `CacheBust.CssPassFindsNoReference` | update-version.js:26-29 | Once the JS pass has swallowed `styles`, the CSS pass finds nothing in `script.js?v=b.css?v=` + version, for any version token, and leaves it unchanged. |
| `CacheBust.RewriteAfterSwallow` | update-version.js:22-35 | On `script.js?v=b.css?v=` + version the rewrite replaces only the script version. The stylesheet version stays as it was. |
| `CacheBust.RewriteRerunKeepsStaleVersion` | update-version.js:22-35 | Two runs of the rewrite on `script.js?v=styles.css?v=1`, with tokens `a`,`b` and then `c`,`d`, give `script.js?v=d.css?v=a`. The stylesheet version from the first run survives. |
| `CacheBust.RewriteRerunDiffers` | update-version.js:22-35 | Those two runs differ from a single run with `c`,`d`, which gives `script.js?v=d.css?v=c`. So the rewrite as a whole does not survive a rerun. |
| `PortfolioScript.NumericPart` | script.js:137 | The numeric part consists of ASCII digits and dots only. |
| `PortfolioScript.Suffix` | script.js:138 | The suffix contains no digit and no dot. |
| `PortfolioScript.SplitOfConcat` | script.js:137-138 | Both parts keep the text's order: splitting a concatenation gives the concatenation of the splits. |
| `PortfolioScript.SplitPartitions` | script.js:137-138 | Every character lands in exactly one part. The lengths add up to the text's length, and the two multisets add up to the text's multiset. |
| `PortfolioScript.NumericPartEmpty` | script.js:137-140 | The numeric part is empty exactly when the text holds no digit and no dot. |
| `PortfolioScript.CounterFor` | script.js:136-141 | A counter starts exactly when the text holds a digit or a dot. It counts from 0 over 2000 ms, to the numeric part, followed by the suffix. |
| `PortfolioScript.NextHue` | script.js:65 | For a hue in [0, 359], the range the counter ever holds, one tick keeps the hue in [0, 359]. It adds one, except that 359 wraps to 0. |
| `PortfolioScript.HueAfter` | script.js:63-65 | After n ticks from 0 the hue is n mod 360. |
| `PortfolioScript.ColorShift.constructor` | script.js:63 | The hue starts at 0, after zero ticks. |
| `PortfolioScript.ColorShift.Tick` | script.js:64-65 | A tick maps hue to (hue + 1) mod 360 and keeps the invariant that hue is the tick count mod 360. |
| `PortfolioScript.Stagger` | script.js:187-191 | Item i is scheduled at i * 200 ms with its own effect. The delays start at 0 and strictly increase. |
| `PortfolioScript.WidthStyle` | script.js:188-190 | The width style is the `data-width` text followed by `%`. A missing attribute is written as `null%`, as JavaScript's string concatenation does. |
| `PortfolioScript.AnimateSkillBars` | script.js:186-192 | Skill bar i gets width `data-width + '%'` after i * 200 ms, and the delays strictly increase. |
| `PortfolioScript.RevealHero` | script.js:440-447 | Hero element i is shown i * 200 ms after the outer 100 ms timer, that is 100 + i * 200 ms after load. These times start at 100 and strictly increase. |
| `PortfolioScript.AnchorScrollTop` | script.js:97-101 | A scroll happens exactly when the target exists, and it scrolls to `offsetTop - 80`. |
| `PortfolioScript.HeaderLookAt` | script.js:115-121 | The header is solid exactly when `scrollY > 50` and clear otherwise, with 50 itself clear. |
| `PortfolioScript.HeaderLookMonotone` | script.js:115 | Scrolling further down never turns a solid header clear. |
| `PortfolioScript.OnScrollHeader` | script.js:112-123 | When the header exists, its background and shadow become the look for the scroll position. When it does not exist, nothing is touched. |
| `PortfolioScript.ScrollTopButtonAt` | script.js:302-308 | The button is visible exactly when `pageYOffset > 300`. |
| `PortfolioScript.ScrollTopButton.constructor` | script.js:288-289 | The created button starts hidden, with opacity 0. |
| `PortfolioScript.ScrollTopButton.OnScroll` | script.js:301-309 | After a scroll event, the button's opacity and visibility are the look for the position. |
| `PortfolioScript.LazySource` | script.js:347 | The image takes `data-src` when it is present and non-empty, and keeps its current `src` otherwise. |
| `PortfolioScript.LazySourceIdempotent` | script.js:347 | Choosing the source a second time changes nothing. |
| `PortfolioScript.LazyImage.Reveal` | script.js:346-349 | Revealing sets `src` by the fallback rule, removes only the `lazy` class, keeps `data-src`, and stops observing the image. |

## Left out

- File reading and writing in `update-version.js` (lines 18-19, 38) and the console summary (lines 40-44) are I/O with no decisions in them.
- `generateVersion` (update-version.js:12-14) draws from `Math.random` and formats a float in base 36. The tokens are parameters instead, restricted by `IsVersionToken`.
- JavaScript replacement patterns such as `$&` in the replacement string are not modelled. Tokens from `0-9a-z` never contain `$`, so the replacement is literal.
- PortfolioScript.CounterFor: keeps the numeric part as text. The number `parseFloat` makes of it is not modelled, and neither is the easing, `toFixed` or `toLocaleString` formatting of `animateCounter` (script.js:154-180), which is floating-point work.
- PortfolioScript.AnchorScrollTop: the page is a map from selectors to `offsetTop`. Selector matching is not modelled. A selector that `querySelector` rejects (such as a bare `#`) throws inside the click handler. That also scrolls nothing, and the model treats it like a missing target.
- The hue's gradient colours (script.js:66-69) use `Math.sin` and `Math.cos` and are not modelled. Only the counter is.
- Mouse-driven transforms (script.js:25-46), random jitter (script.js:48-60) and the parallax rate (script.js:263-270) are floating-point styling and are not modelled.
- The AOS, Typed.js and Chart.js setup (script.js:1-7, 77-91, 203-260) is library configuration and is not modelled.
- IntersectionObserver wiring, `unobserve` calls other than the lazy image's, and event-listener registration are not modelled. The observers are at script.js:126-152, 182-216, 342-379; `Reveal` records only that the image is no longer observed.
- Timers are not run. Only the delays they are set with are modelled, not `setTimeout`, `setInterval` or `requestAnimationFrame` themselves.
- Injected CSS text (script.js:277-296, 381-433, 451-460), the card hover styles (script.js:330-339), the button hover styles and scroll-to-top click (script.js:311-328), and the section reveal classes (script.js:359-379) set styles or classes without any rule to state.
- The staged loading-screen controller of other revisions of the page script is not part of `script.js` and is not modelled.
