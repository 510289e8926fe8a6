# Bookland query builders, presenter schema and token authentication in Dafny

This project models four small pieces of the Bookland Rails API.

- **Filter** (`app/query_builders/filter.rb`): it turns `q[<column>_<predicate>]`
  parameters into column/predicate/value entries and narrows the scope with them.
  Each entry goes, in turn, to one of seven handlers: `eq`, `cont`, `notcont`,
  `start`, `end`, `gt`, `lt`.
- **Paginator** (`app/query_builders/paginator.rb`): it defaults `page` to 1 and
  `per` to 10, and takes the Kaminari page window of the scope.
- **BasePresenter** (`app/presenters/base_presenter.rb`): a presenter class holds
  four class-level allow-lists set by `related_to`, `sort_by`, `filter_by` and
  `build_with`. A presenter instance holds `object`, `params`, `options` and a
  `data` map that `as_json` returns.
- **Authentication** (`app/controllers/concerns/authentication.rb`): the
  `Authorization` value must use the `Bookland-Token` scheme. Credentials are
  scanned out of it with `/(\w+)[:=] ?"?(\w+)"?/`. The client is accepted only
  when its `api_key` credential is an activated key. Every refusal renders 401
  with a `WWW-Authenticate` challenge.

The files:

- `wrappers.dfy`: the `Option` and `Result` types.
- `text.dfy`: Ruby's `split`, which drops trailing empty fields, and `join`; prefix, suffix and substring; lexicographic order.
- `ruby_hash.dfy`: an insertion-ordered Ruby `Hash`, with `h[k] = v` and `Hash[pairs]`.
- `query.dfy`: the part of ActiveRecord the filter relies on. A relation is a table plus the `where` conditions accumulated so far. Executing it keeps, in table order, the rows that meet every condition. `LIKE` is a real matcher for `%` and `_`.
- `filtering.dfy`: `filter.rb`. The fold over the entries is a function (`Build`); the object is the class `Filter`, whose `BuildFilterScope` loop is proved against `Build`.
- `filter_examples.dfy`: the `q[name_cont]=Reilly` example of the publishers controller spec, worked through the model.
- `pagination.dfy`: `paginator.rb`. The paginator's fields are set once, so it is a value.
- `presenters.dfy`: `base_presenter.rb`, as two classes (the presenter class and its instances).
- `authentication.dfy`: `authentication.rb`. The parser is a set of functions; the controller state that `unauthorized!` changes is the class `Controller`.

The scheme check uses `match(/^Bookland-Token /)`. In Ruby, `^` matches at the
start of any line, not only at the start of the string. The model follows the
code. `SchemeMatchesOneLine` proves that on a one-line value the check is exactly
the prefix test "starts with `Bookland-Token `". `SchemeMatchesLaterLine` shows
the difference on a value with a line feed.

## Model

| member | source | states |
|---|---|---|
| Text.Join | app/query_builders/filter.rb:21 | `join('_')` is undone by splitting: fields without the separator, joined, split back into exactly those fields. |
| Text.JoinSplitAll | app/query_builders/filter.rb:21 | Joining the fields of a split with the same separator gives the string back. |
| Text.SplitAllLast | app/query_builders/filter.rb:21-22 | Splitting `c + "_" + p`, where `p` has no underscore, gives the fields of `c` followed by `p`. |
| Text.SplitAllNoSep | app/query_builders/filter.rb:21-22 | A string without the separator splits into itself alone. |
| Text.DropTrailingEmpty | app/query_builders/filter.rb:21-22 | Ruby's split keeps a prefix of the raw fields: everything it drops is empty, and its last field, if any, is not. |
| Text.RubySplit | app/query_builders/filter.rb:21-22 | No field of `split('_')` contains the separator, and its last field is never empty. |
| Text.DropTrailingEmptyNil | app/query_builders/filter.rb:21-22 | Ruby's split result is empty exactly when every raw field is empty. |
| Text.SplitAllEmptyFields | app/query_builders/filter.rb:21-22 | Every raw field is empty exactly when the string consists only of separators. |
| Text.SubstringAsPrefix | app/query_builders/filter.rb:36-38 | A text contains `p` exactly when one of its tails starts with `p`. |
| Text.LexTrichotomy | app/query_builders/filter.rb:48-53 | The order used by `>` and `<` is strict and total: exactly one of `a == b`, `a < b`, `b < a` holds. |
| Text.LexTransitive | app/query_builders/filter.rb:48-53 | The order used by `>` and `<` is transitive. |
| RubyHash.LookupAbsent | app/query_builders/filter.rb:18-19 | A key reads as nil exactly when no pair of the hash carries it. |
| RubyHash.Store | app/query_builders/filter.rb:19 | After `h[k] = v`, `k` maps to `v` and every other key maps to what it did before. |
| RubyHash.StoreNewKey | app/query_builders/filter.rb:19 | Storing a new key appends it at the end and leaves the earlier pairs in place. |
| RubyHash.StoreDistinct | app/query_builders/filter.rb:19 | Storing keeps the keys distinct. |
| RubyHash.LastValueIsLast | app/controllers/concerns/authentication.rb:33 | The value `Hash[pairs]` keeps for a key comes from a pair with that key that no later pair overrides. |
| RubyHash.LastValueNone | app/controllers/concerns/authentication.rb:33 | There is no such value exactly when no pair has the key. |
| RubyHash.FromPairs | app/controllers/concerns/authentication.rb:33 | `Hash[pairs]` has at most one entry per pair, and is empty exactly when there are no pairs; `FromPairsLookup`, `FromPairsDistinctKeys` and `FromPairsOfDistinct` give its contents. |
| RubyHash.FromPairsLookup | app/controllers/concerns/authentication.rb:33 | In `Hash[pairs]`, a repeated name maps to the value of its last pair. |
| RubyHash.FromPairsDistinctKeys | app/controllers/concerns/authentication.rb:33 | `Hash[pairs]` has distinct keys. |
| RubyHash.FromPairsOfDistinct | app/query_builders/filter.rb:18-24 | Pairs whose keys are already distinct are kept as they are, in order. |
| Query.Relation.Where | app/query_builders/filter.rb:33-53 | `where` keeps the table, and a row meets the new relation's conditions exactly when it meets the old ones and the added one. |
| Query.Holds | app/query_builders/filter.rb:33-53 | A condition on a column the row lacks never holds; a row that is `> v` is neither `= v` nor `< v`, and one that is `< v` is neither `= v` nor `> v`. |
| Query.Select | app/query_builders/filter.rb:33-53 | Executing conditions keeps exactly the rows that meet all of them, and never more rows than there were. |
| Query.FirstUnknownColumn | app/query_builders/filter.rb:33-53 | Execution fails exactly when a condition names a column the table lacks, and it reports such a column. |
| Query.Execute | app/query_builders/filter.rb:33-53 | A relation executes exactly when every condition's column exists, and it then yields exactly the table rows meeting every condition. |
| Query.SelectNarrows | app/query_builders/filter.rb:28-30 | Selecting by `a + b` is selecting by `a` and then, from that result, by `b`. |
| Query.LikeLiteralThen | app/query_builders/filter.rb:36-47 | A wildcard-free pattern start must match the text's start exactly. |
| Query.LikePercentAny | app/query_builders/filter.rb:36-47 | `%` matches every text. |
| Query.LikeLeadingPercent | app/query_builders/filter.rb:36-47 | `%q` matches a text exactly when `q` matches one of its tails. |
| Query.LikeMatch | app/query_builders/filter.rb:36-47 | A pattern without `%` only matches texts of its own length, and a pattern without `%` or `_` matches exactly itself. |
| Query.LikePrefix | app/query_builders/filter.rb:42-44 | For a value without `%` or `_`, `value%` matches exactly the texts that start with `value`. |
| Query.LikeSuffix | app/query_builders/filter.rb:45-47 | For a value without `%` or `_`, `%value` matches exactly the texts that end with `value`. |
| Query.LikeSubstring | app/query_builders/filter.rb:36-41 | For a value without `%` or `_`, `%value%` matches exactly the texts that contain `value`. |
| Filtering.PredicateNamed | app/query_builders/filter.rb:29 | `send` reaches a handler only when the name is that handler's method name. |
| Filtering.PredicateNamedName | app/query_builders/filter.rb:33-53 | Every one of the seven handlers is reached by its own name. |
| Filtering.ParseKey | app/query_builders/filter.rb:21-22 | The predicate, when there is one, is non-empty and has no underscore; a key without a predicate has an empty column. |
| Filtering.ParseKeyLastUnderscore | app/query_builders/filter.rb:21-22 | For `c_p` with `p` non-empty and underscore-free, the column is `c` and the predicate is `p`, whatever underscores `c` holds. |
| Filtering.ParseKeyNoUnderscore | app/query_builders/filter.rb:21-22 | A key without an underscore has an empty column and is entirely predicate. |
| Filtering.ParseKeyTrailingUnderscore | app/query_builders/filter.rb:21-22 | A trailing underscore is dropped by the split and changes neither column nor predicate. |
| Filtering.ParseKeyNoPredicate | app/query_builders/filter.rb:22 | The predicate is nil exactly when the key consists of underscores only, the empty key included. |
| Filtering.ParseKeyExamples | app/query_builders/filter.rb:21-22 | `released_on_gt` gives the column `released_on`, underscore kept, and the predicate `gt`. |
| Filtering.ParseKeyPlainExample | app/query_builders/filter.rb:21-22 | `name_cont` gives the column `name` and the predicate `cont`. |
| Filtering.ParseKeyBareExamples | app/query_builders/filter.rb:21-22 | `name_` and `eq` give an empty column and the predicates `name` and `eq`. |
| Filtering.FormatFilters | app/query_builders/filter.rb:17-25 | The formatted hash has distinct keys. |
| Filtering.FormatFiltersEntries | app/query_builders/filter.rb:17-25 | `format_filters` gives one entry per key, in key order, each keeping its value unchanged and carrying the key's column and predicate. |
| Filtering.Condition | app/query_builders/filter.rb:33-53 | Every handler's condition is on the column it was given; `eq`, `gt` and `lt` compare with the value itself. |
| Filtering.ConditionMeaning | app/query_builders/filter.rb:33-53 | For a wildcard-free value, each handler's condition holds on a row exactly when its predicate's meaning does: equality, containment, non-containment, prefix, suffix, greater, less. |
| Filtering.Dispatch | app/query_builders/filter.rb:29 | `send` succeeds exactly when the entry names a handler. It then adds that handler's condition to the scope's conditions, on the same table; otherwise it fails with the entry's predicate. |
| Filtering.Build | app/query_builders/filter.rb:27-31 | The fold keeps the table and the earlier conditions and adds at most one condition per entry; when no entry failed, it adds exactly one per entry. |
| Filtering.BuildStops | app/query_builders/filter.rb:28-30 | Once a key has no handler, later entries are never dispatched. |
| Filtering.BuildAppends | app/query_builders/filter.rb:27-31 | Dispatching succeeds exactly when every entry names a handler. It then adds one condition per entry, in order, to the untouched table and earlier conditions; otherwise it reports the first entry without a handler. |
| Filtering.FilterScope | app/query_builders/filter.rb:8-13 | With an empty `q` the scope comes back unchanged. A successful filter keeps the table and the scope's conditions, in front of any it adds. |
| Filtering.FilterOneKey | app/query_builders/filter.rb:8-13 | A `q` holding one key that names a handler adds exactly that handler's condition to the scope. |
| Filtering.FilterOutcome | app/query_builders/filter.rb:8-13 | `filter` fails exactly when some key names no handler and then reports the first such key. Otherwise it appends, in key order, each key's condition to the scope and changes nothing else. |
| Filtering.FilterSucceeds | app/query_builders/filter.rb:8-13 | When every key names a handler, `filter` succeeds. |
| Filtering.FilterAdded | app/query_builders/filter.rb:27-31 | A successful filter keeps the scope's table and conditions and adds exactly one condition per key, the one that key asks for. |
| Filtering.EntryCondition | app/query_builders/filter.rb:29 | A formatted entry without a predicate has no condition, and an entry's condition is always on the entry's own column; `Dispatch` and `BuildAppends` say when `send` finds a handler. |
| Filtering.KeyCondition | app/query_builders/filter.rb:21-29 | A key made only of underscores, or empty, has no handler; a key's condition is on the column parsed from the key. |
| Filtering.KeyConditionHandler | app/query_builders/filter.rb:29-53 | A key `<column>_<handler>` is dispatched to that handler on that column, with the value unchanged. |
| Filtering.KeyConditionUnknown | app/query_builders/filter.rb:29 | A key whose last part names no handler gets no condition. |
| Filtering.FilterNarrows | app/query_builders/filter.rb:28-30 | The filtered scope is the unfiltered scope plus added conditions. Its result is the unfiltered result narrowed by them: exactly the rows of the unfiltered result that meet every key's condition. |
| Filtering.KeyHoldsMeans | app/query_builders/filter.rb:33-53 | For a wildcard-free value, a key's SQL condition holds exactly when the predicate's meaning holds on the column. |
| Filtering.FilterMeaning | app/query_builders/filter.rb:8-53 | For wildcard-free values, a row is in the filtered result exactly when it is in the unfiltered result and meets the meaning of every key: the fold is a conjunction. |
| Filtering.Filter.constructor | app/query_builders/filter.rb:2-6 | A missing `q` parameter becomes an empty hash; the scope is stored as given. |
| Filtering.Filter.Apply | app/query_builders/filter.rb:8-13 | With no filters, the scope is returned unchanged. Otherwise the formatted entries are stored and the scope becomes the result of the fold over them; the result is that scope or the dispatch error. The raw filters stay in `filters`. |
| Filtering.Filter.BuildFilterScope | app/query_builders/filter.rb:27-31 | The loop leaves the scope, and the error that stopped it, exactly as the fold `Build` over the formatted entries gives them. |
| FilterExamples.NameContEntry | app/query_builders/filter.rb:17-25 | `q[name_cont]=Reilly` formats to column `name`, predicate `cont`, value `Reilly`. |
| FilterExamples.NameContCondition | app/query_builders/filter.rb:36-38 | `name_cont` with `Reilly` becomes `name LIKE '%Reilly%'`. |
| FilterExamples.UnknownPredicateExample | app/query_builders/filter.rb:29 | `title_like` has no handler. |
| FilterExamples.NameContFilter | app/query_builders/filter.rb:8-13 | Filtering with `q[name_cont]=Reilly` adds exactly `name LIKE '%Reilly%'` to the scope. |
| FilterExamples.ReillyRows | spec/controllers/publishers_controller_spec.rb:141-146 | Over O'Reilly, Dev Media and Super Books, `name LIKE '%Reilly%'` keeps O'Reilly only. |
| FilterExamples.NameContExample | spec/controllers/publishers_controller_spec.rb:141-146 | The filtered publishers query succeeds and yields O'Reilly alone. |
| Pagination.Page | app/query_builders/paginator.rb:10-12 | The page holds at most `per` items. It is the contiguous, order-preserving slice of the scope starting at `(page - 1) * per`, or empty past the end. |
| Pagination.Paginator.Paginate | app/query_builders/paginator.rb:10-12 | `paginate` gives `per` items, or fewer at the end of the scope; item `k` of the page is item `(page - 1) * per + k` of the scope. |
| Pagination.NewPaginator | app/query_builders/paginator.rb:2-8 | `page` is the parameter or 1 when absent; `per` is the parameter or 10 when absent; scope, parameters and url are stored as given. |
| Pagination.PagesTile | app/query_builders/paginator.rb:10-12 | Pages 1 to n, one after another, are exactly the first `n * per` items of the scope, in order: no gaps, no overlaps. |
| Pagination.PageOfItem | app/query_builders/paginator.rb:10-12 | Item `k` sits on page `k / per + 1` at position `k % per`. |
| Pagination.PaginatorExamples | spec/query_builders/paginator_spec.rb:20-28 | With `per` 2 over three records, page 1 is the first two in order, as the paginator spec tests, and page 2 is the third alone, as spec/controllers/publishers_controller_spec.rb:84-93 tests. |
| Pagination.PaginatorDefaults | app/query_builders/paginator.rb:4-5 | With no parameters, `paginate` returns the first ten items. |
| Presenters.Schema.With | app/presenters/base_presenter.rb:9-12 | An attribute writer sets its own list and leaves the other three unchanged. |
| Presenters.ToStrings | app/presenters/base_presenter.rb:15 | `args.map(&:to_s)` keeps one name per argument, in order: a symbol gives its name and a string itself. |
| Presenters.Declare | app/presenters/base_presenter.rb:14-28 | A declaration sets its list to the arguments' names in argument order and leaves the other three lists unchanged. |
| Presenters.DeclareOverwrites | app/presenters/base_presenter.rb:14-28 | Declaring the same list twice keeps only the second declaration. |
| Presenters.DeclareCommutes | app/presenters/base_presenter.rb:14-28 | Declarations of different lists do not interfere; their order does not matter. |
| Presenters.DeclareSymbolOrString | app/presenters/base_presenter.rb:14-28 | Symbols and strings name the same attribute (`to_s`), and the list is the names themselves. |
| Presenters.PresenterClass.Base | app/presenters/base_presenter.rb:3-6 | On `BasePresenter` itself the four lists start empty. |
| Presenters.PresenterClass.Subclass | app/presenters/base_presenter.rb:3-6 | A subclass that has not declared a list reads nil for it, not an empty list. |
| Presenters.PresenterClass.RelatedTo | app/presenters/base_presenter.rb:14-16 | `related_to` changes the class state exactly as `Declare` on the relations list. |
| Presenters.PresenterClass.SortBy | app/presenters/base_presenter.rb:18-20 | `sort_by` changes the class state exactly as `Declare` on the sort list. |
| Presenters.PresenterClass.FilterBy | app/presenters/base_presenter.rb:22-24 | `filter_by` changes the class state exactly as `Declare` on the filter list. |
| Presenters.PresenterClass.BuildWith | app/presenters/base_presenter.rb:26-28 | `build_with` changes the class state exactly as `Declare` on the build list. |
| Presenters.PresenterClass.SetList | app/presenters/base_presenter.rb:9-12 | The class-level attribute writers replace one list and nothing else. |
| Presenters.BasePresenter.constructor | app/presenters/base_presenter.rb:33-38 | `object` and `params` are stored as given, `options` defaults to an empty hash, and `data` starts empty. |
| Presenters.BasePresenter.AsJson | app/presenters/base_presenter.rb:40-42 | `as_json` returns the `data` map as it stands and changes nothing. |
| Presenters.BasePresenter.SetObj | app/presenters/base_presenter.rb:31 | `object=` replaces the object and nothing else. |
| Presenters.BasePresenter.SetParams | app/presenters/base_presenter.rb:31 | `params=` replaces the parameters and nothing else. |
| Presenters.BasePresenter.SetData | app/presenters/base_presenter.rb:31 | `data=` replaces the data map and nothing else. |
| Authentication.AuthorizationRequest | app/controllers/concerns/authentication.rb:28-30 | A missing `Authorization` header reads as the empty string; a present one reads as its value. |
| Authentication.SchemeMatchesFromIff | app/controllers/concerns/authentication.rb:14 | The search from position `i` succeeds exactly when, at or after `i`, a line starts with `Bookland-Token `. |
| Authentication.SchemeMatches | app/controllers/concerns/authentication.rb:4-14 | The scheme check passes exactly when some line of the value starts with `Bookland-Token ` (the scheme and one space). |
| Authentication.SchemeMatchesOneLine | app/controllers/concerns/authentication.rb:13-17 | On a value without line feeds, the check passes exactly when the value starts with `Bookland-Token `; the empty value fails. |
| Authentication.SchemeMatchesLaterLine | app/controllers/concerns/authentication.rb:14 | Because `^` anchors at every line, a later line that starts with the scheme also passes. |
| Authentication.WordRunEnd | app/controllers/concerns/authentication.rb:33 | `\w+` takes the longest run of word characters: all characters inside are word characters, and the next one is not. |
| Authentication.ValueAt | app/controllers/concerns/authentication.rb:33 | The value half of the pattern captures a non-empty word and ends after it, within the text. Where the value sits is stated by `ValueAtSound` and `MatchOneCredential`. |
| Authentication.MatchAt | app/controllers/concerns/authentication.rb:33 | A match at `i` captures the word name found at `i`, followed by `:` or `=`, and a word value; it ends within the text. |
| Authentication.ValueAtSound | app/controllers/concerns/authentication.rb:33 | Every captured value is the text after an optional space and an optional opening quote; an optional closing quote follows it, and the text after the match does not continue the value. |
| Authentication.MatchAtSound | app/controllers/concerns/authentication.rb:33 | Soundness: every match is a written credential, a word name, `:` or `=`, an optional space, optional opening and closing quotes and a word value, followed by text that does not continue it. |
| Authentication.MatchOneCredential | app/controllers/concerns/authentication.rb:33 | Completeness: every such credential, with each quote present or absent independently and followed by any text that does not continue the value, is matched with its own name and value, and the match ends where the credential does. |
| Authentication.MatchAtIff | app/controllers/concerns/authentication.rb:33 | The pattern matches at a position exactly when a well-formed credential is written there. |
| Authentication.Scan | app/controllers/concerns/authentication.rb:33 | `scan` yields at most one pair per character it passes; `ScanWords`, `ScanSkip`, `ScanJoined` and `MatchAtIff` give its contents. |
| Authentication.ScanWords | app/controllers/concerns/authentication.rb:33 | Every scanned pair is a word name with a word value. |
| Authentication.ScanSkip | app/controllers/concerns/authentication.rb:33 | Scanning moves past positions where the pattern does not match without collecting anything. |
| Authentication.ScanJoined | app/controllers/concerns/authentication.rb:33 | Credentials written one after another, separated by a gap such as `", "` or a space and followed by text without `:` or `=` that does not continue the last value, scan back as their name and value pairs, in the order written. |
| Authentication.Credentials | app/controllers/concerns/authentication.rb:32-34 | `credentials` has distinct names, and each name reads the value of its last scanned pair. |
| Authentication.CredentialsJoined | app/controllers/concerns/authentication.rb:32-34 | A `Bookland-Token` header of credentials separated by gaps, and ending in text without `:` or `=` that does not continue the last value, yields `Hash[pairs]`: a repeated name keeps its first position and the value written last. |
| Authentication.OneCredential | spec/controllers/concerns/authentication_spec.rb:17-19 | `Bookland-Token` followed by one credential in any of its forms, and then any text without `:` or `=` that does not continue the value, yields exactly that name and value, e.g. `{"api_key" => key}`. |
| Authentication.RepeatedCredential | app/controllers/concerns/authentication.rb:33 | `api_key=a api_key=b other=c api_key=d` yields `api_key => d` first and `other => c` second. |
| Authentication.Blank | app/controllers/concerns/authentication.rb:37 | nil is blank, and a word is never blank. |
| Authentication.CredentialNeverBlank | app/controllers/concerns/authentication.rb:33-37 | A captured value is never blank, so `blank?` on a credential means only that it is absent. |
| Authentication.ApiKey | app/controllers/concerns/authentication.rb:36-39 | There is an API key exactly when the `api_key` credential is present and is an activated key, and it is that credential. |
| Authentication.Accepted | app/controllers/concerns/authentication.rb:6-21 | Both before-actions pass exactly when the scheme check passes and the `api_key` credential is an activated key. |
| Authentication.Challenge | app/controllers/concerns/authentication.rb:24 | The challenge starts with the scheme and a space and ends with a closing quote. |
| Authentication.ChallengeRoundTrip | app/controllers/concerns/authentication.rb:14-33 | For a single-word realm, the challenge passes the scheme check and scans back to exactly `realm = <realm>`. |
| Authentication.ChallengeClientRealm | app/controllers/concerns/authentication.rb:15-33 | The challenge actually sent, for the two-word realm `Client Realm`, passes the scheme check but scans back as `realm => "Client"` only. |
| Authentication.Controller.constructor | app/controllers/concerns/authentication.rb:28-30 | The request's authorization is the header or the empty string; nothing is rendered yet. |
| Authentication.Controller.Unauthorize | app/controllers/concerns/authentication.rb:23-26 | `unauthorized!` sets `WWW-Authenticate` to the challenge, keeps the other headers, sets status 401 and renders. |
| Authentication.Controller.ValidateAuthScheme | app/controllers/concerns/authentication.rb:13-17 | A value failing the scheme check gets the 401 challenge for "Client Realm"; otherwise nothing changes. |
| Authentication.Controller.AuthenticateClient | app/controllers/concerns/authentication.rb:19-21 | A request without an activated API key gets the 401 challenge for "Client Realm"; otherwise nothing changes. |
| Authentication.Controller.RunBeforeActions | app/controllers/concerns/authentication.rb:6-9 | An accepted request leaves status 200 and no headers. Any other request gets status 401 and exactly the `Bookland-Token realm="Client Realm"` challenge, rendered once. |
| Authentication.AuthenticationExamples | spec/controllers/concerns/authentication_spec.rb:8-42 | An empty header is refused. For a key made of word characters, `Bookland-Token api_key=<key>` is accepted exactly when the key is activated, so a fake or disabled key is refused. |

## Left out

- SQL is not executed against a database. `where` adds a condition to a relation, and running it is modelled over rows whose columns hold strings. SQL NULL is not modelled: a row without the column fails every condition.
- The filter puts the column name into the SQL text unescaped. The model treats it as a plain column name and does not capture SQL injection through it.
- `LIKE` is modelled case-sensitive, with no escape character. Values are not escaped in the source either, so `%` and `_` in a value act as wildcards.
- Filtering.ConditionMeaning: the meaning of `cont`, `notcont`, `start` and `end` is stated only for values without `%` or `_`, because the source passes such characters through as wildcards.
- Filtering.KeyHoldsMeans: stated only for wildcard-free values, for the same reason.
- Filtering.FilterMeaning: stated only for wildcard-free values, for the same reason.
- `gt` and `lt` compare strings lexicographically by character code. The database's typed comparison of dates and numbers is not modelled.
- A `q` parameter that is not a hash is not modelled. Neither is `HashWithIndifferentAccess`'s treatment of symbol keys as strings: keys are strings.
- Filter values are modelled as strings only. Rails parameters can also carry nil (`?q[name_eq]` without `=`), arrays (`?q[name_eq][]=a&q[name_eq][]=b`) and nested hashes. With those, `eq`'s `where(column => value)` becomes `IS NULL` or `IN (...)`, and the `LIKE` handlers interpolate the value's printed form, e.g. `LIKE '%%'` for nil, which matches every non-NULL value. None of this is modelled.
- `send` with a predicate naming some other method of the object is modelled as "no handler". The source would call that method with the column and the value instead (`q[x_filter]` calls `filter`, which takes no arguments, and so raises), and `q[system_send]=<cmd>` gives predicate `send` and column `system`, so `send(:send, "system", cmd)` reaches `Kernel#system`. The allow-list that may stop such keys is not part of this model.
- Loading the presenter in `Filter#initialize` (`constantize`) is not modelled, because its result is never used by the filter. It can still fail: when no `<Model>Presenter` class exists it raises `NameError`, so `Filter.new` fails before any filtering; the model's constructor always succeeds.
- The allow-list check that answers 400 for unknown filter, sort or field names lives in code that is not part of this model.
- Kaminari's conversion of `page` and `per` strings to integers is not modelled. Its treatment of non-positive or malformed values, and the 400 for `page=fake`, are not modelled either: the parameters are integers.
- Pagination.Page: requires `page >= 1` and `per >= 1`; the source passes any parameter on to Kaminari.
- Pagination.Paginator.Paginate: requires `page >= 1` and `per >= 1` for the same reason.
- The `Link` header and the stored `url` are not modelled beyond storing `url`; the paginator never uses it.
- Filtering.Filter.Apply: the formatted entries go to a separate field, `formatted`, while the source stores them back into `@filters`. A second `filter` on the same object would then format a hash of hashes and send hashes as values; that repeated call is not modelled.
- Presenters.BasePresenter.AsJson: `data` is a map from strings. `HashWithIndifferentAccess`, which also accepts symbol keys, is not modelled, and neither is the fact that `as_json` returns the object itself, so a caller could change the presenter's data through it.
- `paginate` changes no state and gives the same window every time. This holds by construction, since the paginator is an immutable value, so no separate member states it.
- The items that `build_attributes` lists are used by the field picker, which is not part of this model.
- `ApiKey.activated.where(key: ...).first` is modelled as membership in a given set of activated keys. The database and the memoisation (`||=`) of the request, credentials and key are not modelled.
- Other ways Rails reads the authorization header, such as `X-HTTP_AUTHORIZATION`, are not modelled; the header is given as an optional string.
- Authentication.Controller.Unauthorize: requires that nothing has been rendered yet, because Rails raises on a double render.
- Authentication.Controller.ValidateAuthScheme: requires that nothing has been rendered yet, for the same reason.
- Authentication.Controller.AuthenticateClient: requires that nothing has been rendered yet, for the same reason.
- Authentication.Controller.RunBeforeActions: requires a fresh response (status 200, no headers, nothing rendered). Rails halting the before-action chain on `render` is modelled by the `performed` flag.
- The controllers that include these pieces are not modelled, nor the eager loader, sorter and serializer, which are not part of this model.
