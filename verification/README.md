# ParserNoCode scrape core, in Dafny

This project models the extraction core of the ParserNoCode web service
(`main.py`). The `/scrape` endpoint takes a URL and a mapping from field
names to selector rules (`SelectorCSS`). Each rule has a CSS `query`, an
optional `all` flag, an optional `order` index and a `strip` flag. The
endpoint parses the fetched page and turns every rule into one of three
values:

- `None` when the selector matches nothing;
- the list of every match's text when `all` is truthy;
- the text of `matches[order]` when `order` is truthy;
- the text of the first match otherwise.

A rule that sets both `all` and `order` is rejected by its model validator.

The parsed page is an abstract collaborator (`Documents.Document`). Its three
capabilities are left uninterpreted: the existence test `cssMatches`, the
ordered match list `css`, and node text `text(node, strip)`.
`Documents.Consistent` states what the selector library promises: a query
matches exactly when its match list is non-empty. The extraction functions
do not assume it. They follow the code literally, so an inconsistent page can
make the first-match branch fail. Only the lemmas that need the promise
require it.

Modules:

- `Wrappers`: `Option` and `Result`.
- `PyList`: Python list subscription, including negative indices and `IndexError`.
- `SelectorRules`: the rule, its validator, Python truthiness of `all` and `order`, and the tagged cardinality (FIRST, ALL or NTH) that a validated rule stands for.
- `Documents`: the abstract parsed page.
- `Extraction`: one loop iteration (`EvalField`), the whole loop as a reference function (`Evaluate`), and the loop itself (`Scrape`), together with the field-level properties.
- `ScrapeRequest`: validation of the whole `selectors` mapping, followed by extraction, giving the endpoint's answer.
- `Scenarios`: worked requests against a small concrete page.

Python behaviour the model keeps:

- An `order` from -n to -1, with n matches, counts from the end, as Python indexing does. Below -n it raises `IndexError`, like any out-of-range index.
- `order = 0` is falsy, so it takes the first-match branch. `EvalFieldFollowsCardinality` shows the result is the same as NTH(0).
- `all = false` with no `order` behaves like an absent `all`, so the rule takes the first match.
- `all = false` together with an `order` is rejected. The validator tests for `None`, not truthiness.
- An out-of-range `order` is an uncaught `IndexError`. It aborts the whole request rather than producing a per-field error. The error names no field, so the outcome does not depend on the order in which fields are visited. `Scrape` picks fields in an arbitrary order and is proved equal to `Evaluate`.

## Model

| member | source | states |
|---|---|---|
| `SelectorRules.DefaultRule` | main.py:13-17 | a rule that gives only its query passes the validator unchanged and takes the first match |
| `SelectorRules.Valid` | main.py:21 | the validator accepts a rule exactly when at most one of `all` and `order` is set; `all = false` with an `order` is not accepted |
| `SelectorRules.AllTruthy` | main.py:59 | `all` is truthy exactly when it is `True`; `None` and `False` are falsy |
| `SelectorRules.OrderTruthy` | main.py:62 | `order` is truthy exactly when it is a non-zero integer; `None` and `0` are falsy |
| `SelectorRules.Validate` | main.py:19-23 | a rule is rejected exactly when both `all` and `order` are non-`None`, `all = false` included; an accepted rule is returned unchanged |
| `SelectorRules.CardinalityOf` | main.py:59-66 | a validated rule stands for exactly one cardinality: ALL iff `all = true`, NTH(order) iff `order` is present, FIRST otherwise |
| `SelectorRules.BranchesMatchCardinality` | main.py:59-66 | for a validated rule, the code's truthiness branches line up with the cardinality: `all` truthy is ALL, `order` truthy is NTH with a non-zero index, both falsy is FIRST or NTH(0) |
| `PyList.Index` | main.py:63 | `xs[k]` succeeds exactly when `-n <= k < n`, and then reads a position below `n` congruent to `k` modulo `n` |
| `PyList.NegativeMirrorsPositive` | main.py:63 | `xs[k - n]` and `xs[k]` read the same element for every valid non-negative `k` |
| `PyList.ZeroValidIffNonEmpty` | main.py:66 | `xs[0]` succeeds exactly when the list is non-empty, and then reads the first element |
| `Extraction.Texts` | main.py:60 | the comprehension yields one text per node, in node order, entry i being the text of node i under the rule's `strip` |
| `Extraction.EvalField` | main.py:52-66 | a field is `None` exactly when the selector does not match; it is a list exactly when it matches and `all` is truthy; a failure happens only on a match with `all` falsy |
| `Extraction.Evaluate` | main.py:50-68 | evaluation fails exactly when some field's extraction fails; on success the result's keys are exactly the request's field names, and each value is that field's own extraction |
| `Extraction.Scrape` | main.py:50-68 | the loop, visiting fields in any order and stopping at the first `IndexError`, produces the same outcome as the reference evaluation |
| `Extraction.NoMatchIsNull` | main.py:52-57 | on a consistent page, a selector with no matches yields `None` whatever `all`, `order` and `strip` are |
| `Extraction.AllListsEveryMatch` | main.py:59-60 | with `all` truthy the field is a list with one entry per match, in match order, entry i being the text of match i |
| `Extraction.OrderSelectsMatch` | main.py:62-63 | with `all` falsy and `order = k` non-zero: evaluation fails exactly when `k` is outside `-n <= k < n`; otherwise `0 < k < n` reads match k and `-n <= k < 0` reads match `n + k` |
| `Extraction.FirstMatchNeverFails` | main.py:65-66 | on a consistent page, with `all` falsy and `order` absent or zero, a matching selector yields the first match's text and never fails |
| `Extraction.ValueShape` | main.py:52-66 | a successful value is `None` iff nothing matched, a list iff `all` is truthy on a match, and a string iff `all` is falsy on a match |
| `Extraction.ExtractByCardinality` | main.py:52-66 | extraction driven by the tagged cardinality: no match is `None`; ALL lists one text per match, entry i being the text of match i; NTH(k) fails exactly outside `-n <= k < n` and otherwise reads match k or match `n + k`; FIRST on a non-empty match list reads the first match |
| `Extraction.EvalFieldFollowsCardinality` | main.py:59-66 | for every validated rule, the code's two optional fields give the same outcome as extraction by the rule's tagged cardinality |
| `Extraction.FieldDependsOnlyOnItsRule` | main.py:51-66 | two successful evaluations that give a field the same rule give it the same value, whatever the other rules are |
| `Extraction.AddingRuleKeepsOthers` | main.py:51-66 | if evaluation succeeds after adding or replacing one rule, it also succeeds without that rule, and every other field keeps its value |
| `ScrapeRequest.ValidateSelectors` | main.py:19-29 | the selectors mapping is accepted unchanged exactly when every rule passes its validator; otherwise the rejection names exactly the failing fields |
| `ScrapeRequest.Handle` | main.py:42-68 | the answer is a rejection exactly when some rule sets both `all` and `order`; a data answer covers exactly the requested fields; in the model, a server error comes only from an out-of-range index |
| `ScrapeRequest.RejectedBodyIgnoresPage` | main.py:19-23 | a body with a contradictory rule is rejected with the same answer whatever the page holds |
| `ScrapeRequest.AnswerCoversEveryField` | main.py:50-68 | a data answer holds one value per requested field, and each value is what that field's rule extracts when evaluated alone |
| `Scenarios.HeadingTakesFirstMatch` | main.py:65-66 | a rule with neither `all` nor `order` on `<h1>Hello</h1>` gives "Hello", or the unstripped text when `strip` is off |
| `Scenarios.ItemsListedInOrder` | main.py:59-60 | `all = true` over three items "a", "b", "c" gives `["a", "b", "c"]` |
| `Scenarios.OrderAndMissing` | main.py:52-63 | `order = -1` gives the last item, `order = 5` over three items fails the request, and an unmatched selector gives `None` |
| `Scenarios.AllFalseWithOrderRejected` | main.py:19-23 | `all = false` with `order = 1` is rejected |

## Left out

- The `GET /` landing page and its read of `base.html` (main.py:34-39) are left out: they are web plumbing and file I/O.
- The `httpx.get` fetch and its `HTTPError` path (main.py:44-47) are left out as network I/O. That path returns an `HTTPException` object instead of raising it. `ScrapeRequest.Handle` starts from an already parsed page.
- Failures inside the selector library are not modelled. Examples are an unparsable `query` passed to `css_matches` or `css`. Such an exception is as uncaught as the `IndexError` and would also end the request with a server error. In the model, `cssMatches` and `css` answer every query.
- HTML parsing and CSS matching are not modelled. `HTMLParser`, `css_matches`, `css` and `node.text(strip=...)` are uninterpreted fields of `Documents.Document`. The only property assumed of them is `Documents.Consistent`, and only where a lemma states it.
- Pydantic parsing of the request body is left out: JSON decoding, `HttpUrl` validation of `url`, and type coercion of the rule fields. The selectors arrive as a Dafny `map`. A duplicate JSON key is therefore already resolved.
- The error payloads are not modelled. The rejected body is reduced to the set of failing field names, and the uncaught `IndexError` to a bare server error.
- Determinism and idempotence of evaluation are not stated as lemmas. Every member is a mathematical function, so they hold by construction.
