/**
 * The filter query builder (app/query_builders/filter.rb): `q[<column>_<predicate>]`
 * parameters are split into column, predicate and value, and each one is
 * applied to the scope in turn through the handler named by its predicate.
 */
module Filtering {
  import opened Wrappers
  import opened Text
  import opened RubyHash
  import opened Query

  /** The seven handlers the filter defines. */
  datatype Predicate = Eq | Cont | NotCont | Start | End | Gt | Lt

  /** The handler's method name. */
  function Name(p: Predicate): string {
    match p
    case Eq => "eq"
    case Cont => "cont"
    case NotCont => "notcont"
    case Start => "start"
    case End => "end"
    case Gt => "gt"
    case Lt => "lt"
  }

  /** The handler that `send(name, ...)` reaches, if it is one of the seven. */
  function PredicateNamed(name: string): (r: Option<Predicate>)
    ensures r.Some? ==> Name(r.value) == name
  {
    if name == "eq" then Some(Eq)
    else if name == "cont" then Some(Cont)
    else if name == "notcont" then Some(NotCont)
    else if name == "start" then Some(Start)
    else if name == "end" then Some(End)
    else if name == "gt" then Some(Gt)
    else if name == "lt" then Some(Lt)
    else None
  }

  /** Every handler is reached by its own name. */
  lemma PredicateNamedName(p: Predicate)
    ensures PredicateNamed(Name(p)) == Some(p)
  {
  }

  datatype KeyParts = KeyParts(column: string, predicateName: Option<string>)

  /**
   * `key.split('_')[0...-1].join('_')` and `key.split('_').last`; the last
   * is nil when the split is empty.
   */
  function ParseKey(key: string): (r: KeyParts)
    ensures r.predicateName.Some? ==> r.predicateName.value != "" && '_' !in r.predicateName.value
    ensures r.predicateName.None? ==> r.column == ""
  {
    var fields := RubySplit(key, '_');
    if fields == [] then KeyParts("", None)
    else KeyParts(Join(fields[..|fields| - 1], '_'), Some(fields[|fields| - 1]))
  }

  /** The predicate is what follows the last underscore; the column is everything before it. */
  lemma ParseKeyLastUnderscore(c: string, p: string)
    requires p != "" && '_' !in p
    ensures ParseKey(c + "_" + p) == KeyParts(c, Some(p))
  {
    SplitAllLast(c, '_', p);
    assert c + "_" + p == c + ['_'] + p;
    var fields := SplitAll(c, '_') + [p];
    assert RubySplit(c + "_" + p, '_') == fields;
    assert fields[..|fields| - 1] == SplitAll(c, '_');
    JoinSplitAll(c, '_');
  }

  /** A key without an underscore is all predicate and an empty column. */
  lemma ParseKeyNoUnderscore(k: string)
    requires k != "" && '_' !in k
    ensures ParseKey(k) == KeyParts("", Some(k))
  {
    SplitAllNoSep(k, '_');
    assert RubySplit(k, '_') == [k];
  }

  /** A trailing underscore is dropped by the split, so it changes nothing. */
  lemma ParseKeyTrailingUnderscore(k: string)
    ensures ParseKey(k + "_") == ParseKey(k)
  {
    SplitAllLast(k, '_', "");
    assert k + "_" == k + ['_'] + "";
    var fields := SplitAll(k, '_') + [""];
    assert fields[..|fields| - 1] == SplitAll(k, '_');
    assert RubySplit(k + "_", '_') == DropTrailingEmpty(fields) == RubySplit(k, '_');
  }

  /** Only a key made of underscores (or the empty key) has no predicate at all. */
  lemma ParseKeyNoPredicate(k: string)
    ensures ParseKey(k).predicateName == None <==> forall i :: 0 <= i < |k| ==> k[i] == '_'
  {
    var fields := SplitAll(k, '_');
    assert ParseKey(k).predicateName == None <==> DropTrailingEmpty(fields) == [];
    DropTrailingEmptyNil(fields);
    SplitAllEmptyFields(k, '_');
    assert AllChar(k, '_') <==> forall i :: 0 <= i < |k| ==> k[i] == '_';
  }

  /** An example key whose column has an underscore of its own. */
  lemma ParseKeyExamples()
    ensures ParseKey("released_on_gt") == KeyParts("released_on", Some("gt"))
  {
    assert "released_on" + "_" + "gt" == "released_on_gt";
    ParseKeyLastUnderscore("released_on", "gt");
  }

  /** An example key with a one-word column. */
  lemma ParseKeyPlainExample()
    ensures ParseKey("name_cont") == KeyParts("name", Some("cont"))
  {
    assert "name" + "_" + "cont" == "name_cont";
    ParseKeyLastUnderscore("name", "cont");
  }

  /** Example keys without a column: a trailing underscore and no underscore at all. */
  lemma ParseKeyBareExamples()
    ensures ParseKey("name_") == KeyParts("", Some("name"))
    ensures ParseKey("eq") == KeyParts("", Some("eq"))
  {
    ParseKeyTrailingUnderscore("name");
    assert "name" + "_" == "name_";
    ParseKeyNoUnderscore("name");
    ParseKeyNoUnderscore("eq");
  }

  /** One formatted filter: the value as given, the column and the predicate name. */
  datatype FilterEntry = FilterEntry(value: string, column: string, predicateName: Option<string>)

  function Entry(key: string, value: string): FilterEntry {
    var parts := ParseKey(key);
    FilterEntry(value, parts.column, parts.predicateName)
  }

  /** `format_filters`: each key stored with its entry into a new hash, in order. */
  function FormatFilters(q: Hash<string>): (r: Hash<FilterEntry>)
    ensures DistinctKeys(r)
  {
    var ps := seq(|q|, i requires 0 <= i < |q| => (q[i].0, Entry(q[i].0, q[i].1)));
    FromPairsDistinctKeys(ps);
    FromPairs(seq(|q|, i requires 0 <= i < |q| => (q[i].0, Entry(q[i].0, q[i].1))))
  }

  /** One entry per key of `q`, in the same order, keeping each value unchanged. */
  lemma FormatFiltersEntries(q: Hash<string>)
    requires DistinctKeys(q)
    ensures var r := FormatFilters(q);
      && |r| == |q|
      && forall i :: 0 <= i < |q| ==>
           && r[i].0 == q[i].0
           && r[i].1.value == q[i].1
           && KeyParts(r[i].1.column, r[i].1.predicateName) == ParseKey(q[i].0)
  {
    var ps := seq(|q|, i requires 0 <= i < |q| => (q[i].0, Entry(q[i].0, q[i].1)));
    assert DistinctKeys(ps);
    FromPairsOfDistinct(ps);
  }

  /** The SQL condition each handler adds to the scope. */
  function Condition(p: Predicate, column: string, value: string): (r: Sql)
    ensures r.column == column
    ensures p in {Eq, Gt, Lt} ==> r.operand == value
  {
    match p
    case Eq => Equals(column, value)
    case Cont => Like(column, "%" + value + "%")
    case NotCont => NotLike(column, "%" + value + "%")
    case Start => Like(column, value + "%")
    case End => Like(column, "%" + value)
    case Gt => Greater(column, value)
    case Lt => Less(column, value)
  }

  /** What each predicate means for a column value `x` and a filter value `v`. */
  predicate Meaning(p: Predicate, x: string, v: string) {
    match p
    case Eq => x == v
    case Cont => IsSubstring(v, x)
    case NotCont => !IsSubstring(v, x)
    case Start => IsPrefix(v, x)
    case End => IsSuffix(v, x)
    case Gt => LexLess(v, x)
    case Lt => LexLess(x, v)
  }

  /** For a value without LIKE wildcards, each handler's condition holds exactly when the predicate's meaning does. */
  lemma ConditionMeaning(p: Predicate, column: string, value: string, row: Row)
    requires NoWildcards(value)
    requires column in row
    ensures Holds(Condition(p, column, value), row) <==> Meaning(p, row[column], value)
  {
    var x := row[column];
    match p
    case Cont => LikeSubstring(value, x);
    case NotCont => LikeSubstring(value, x);
    case Start => LikePrefix(value, x);
    case End => LikeSuffix(value, x);
    case _ =>
  }

  /** The condition a formatted entry leads to, or None when `send` finds no handler. */
  function EntryCondition(e: FilterEntry): (r: Option<Sql>)
    ensures e.predicateName.None? ==> r.None?
    ensures r.Some? ==> r.value.column == e.column
  {
    match e.predicateName
    case None => None
    case Some(name) =>
      match PredicateNamed(name)
      case None => None
      case Some(p) => Some(Condition(p, e.column, e.value))
  }

  /** Raised when the predicate names no handler (`send` fails). */
  datatype FilterError = NoHandler(predicateName: Option<string>)

  /** `send(data[:predicate], data[:column], data[:value])` on the current scope. */
  function Dispatch(scope: Relation, e: FilterEntry): (r: Result<Relation, FilterError>)
    ensures r.Ok? <==> EntryCondition(e).Some?
    ensures r.Ok? ==> r.value.table == scope.table && r.value.conditions == scope.conditions + [EntryCondition(e).value]
    ensures r.Err? ==> r.error == NoHandler(e.predicateName)
  {
    match EntryCondition(e)
    case Some(c) => Ok(scope.Where(c))
    case None => Err(NoHandler(e.predicateName))
  }

  /** The scope after a run of `build_filter_scope`, and the error that stopped it, if any. */
  datatype BuildState = BuildState(scope: Relation, error: Option<FilterError>)

  /** `build_filter_scope` over the entries, in order; an error stops the loop with the scope reached so far. */
  function Build(scope: Relation, es: Hash<FilterEntry>): (r: BuildState)
    ensures r.scope.table == scope.table
    ensures |scope.conditions| <= |r.scope.conditions| <= |scope.conditions| + |es|
    ensures r.scope.conditions[..|scope.conditions|] == scope.conditions
    ensures r.error == None ==> |r.scope.conditions| == |scope.conditions| + |es|
  {
    if es == [] then BuildState(scope, None)
    else
      var prev := Build(scope, es[..|es| - 1]);
      if prev.error.Some? then prev
      else
        match Dispatch(prev.scope, es[|es| - 1].1)
        case Ok(next) => BuildState(next, None)
        case Err(e) => BuildState(prev.scope, Some(e))
  }

  /** Once an error is raised, the later entries are never dispatched. */
  lemma {:induction false} BuildStops(scope: Relation, es: Hash<FilterEntry>, k: nat)
    requires k <= |es|
    requires Build(scope, es[..k]).error.Some?
    ensures Build(scope, es) == Build(scope, es[..k])
  {
    if k < |es| {
      var init := es[..|es| - 1];
      assert init[..k] == es[..k];
      BuildStops(scope, init, k);
    } else {
      assert es[..k] == es;
    }
  }

  /**
   * Building succeeds exactly when every entry names a handler; the scope then
   * carries one more condition per entry, in order. Otherwise the error names
   * the first entry without a handler.
   */
  lemma {:induction false} BuildAppends(scope: Relation, es: Hash<FilterEntry>)
    ensures var b := Build(scope, es);
      && (b.error == None <==> forall i :: 0 <= i < |es| ==> EntryCondition(es[i].1).Some?)
      && (b.error == None ==>
            && b.scope.table == scope.table
            && |b.scope.conditions| == |scope.conditions| + |es|
            && b.scope.conditions[..|scope.conditions|] == scope.conditions
            && forall i :: 0 <= i < |es| ==>
                 Some(b.scope.conditions[|scope.conditions| + i]) == EntryCondition(es[i].1))
      && (b.error != None ==>
            exists i :: 0 <= i < |es| && EntryCondition(es[i].1) == None
              && (forall j :: 0 <= j < i ==> EntryCondition(es[j].1).Some?)
              && b.error == Some(NoHandler(es[i].1.predicateName)))
  {
    if es != [] {
      var init := es[..|es| - 1];
      var last := es[|es| - 1];
      BuildAppends(scope, init);
      var prev := Build(scope, init);
      assert forall i :: 0 <= i < |init| ==> init[i] == es[i];
      if prev.error == None {
        var n := |scope.conditions|;
        match EntryCondition(last.1)
        case Some(c) =>
          var conds := prev.scope.conditions + [c];
          assert Build(scope, es) == BuildState(prev.scope.Where(c), None);
          assert conds[..n] == prev.scope.conditions[..n];
          forall i | 0 <= i < |es| ensures Some(conds[n + i]) == EntryCondition(es[i].1) {
            if i < |init| {
              assert conds[n + i] == prev.scope.conditions[n + i];
              assert Some(prev.scope.conditions[n + i]) == EntryCondition(init[i].1);
            } else {
              assert conds[n + i] == c && es[i] == last;
            }
          }
        case None =>
          assert EntryCondition(es[|es| - 1].1) == None;
      }
    }
  }

  /** What `filter` returns for a scope and the `q` hash: the scope itself when `q` is empty. */
  function FilterScope(scope: Relation, q: Hash<string>): (r: Result<Relation, FilterError>)
    ensures q == [] ==> r == Ok(scope)
    ensures r.Ok? ==> r.value.table == scope.table
    ensures r.Ok? ==> |scope.conditions| <= |r.value.conditions| && r.value.conditions[..|scope.conditions|] == scope.conditions
  {
    if q == [] then Ok(scope)
    else
      var b := Build(scope, FormatFilters(q));
      match b.error
      case Some(e) => Err(e)
      case None => Ok(b.scope)
  }

  /** The condition the filter applies for one `q` key and value, if the key names a handler. */
  function KeyCondition(key: string, value: string): (r: Option<Sql>)
    ensures AllChar(key, '_') ==> r == None
    ensures r.Some? ==> r.value.column == ParseKey(key).column
  {
    ParseKeyNoPredicate(key);
    EntryCondition(Entry(key, value))
  }

  /**
   * `filter` fails exactly when some key names no handler, and then reports
   * the first such key's predicate; otherwise it adds, in key order, the
   * condition of every key to the scope and changes nothing else.
   */
  lemma FilterOutcome(scope: Relation, q: Hash<string>)
    requires DistinctKeys(q)
    ensures FilterScope(scope, q).Ok? <==> forall i :: 0 <= i < |q| ==> KeyCondition(q[i].0, q[i].1).Some?
    ensures FilterScope(scope, q).Ok? ==>
      var r := FilterScope(scope, q).value;
      && r.table == scope.table
      && |r.conditions| == |scope.conditions| + |q|
      && r.conditions[..|scope.conditions|] == scope.conditions
      && forall i :: 0 <= i < |q| ==> Some(r.conditions[|scope.conditions| + i]) == KeyCondition(q[i].0, q[i].1)
    ensures FilterScope(scope, q).Err? ==>
      exists i :: 0 <= i < |q| && KeyCondition(q[i].0, q[i].1) == None
        && (forall j :: 0 <= j < i ==> KeyCondition(q[j].0, q[j].1).Some?)
        && FilterScope(scope, q).error == NoHandler(ParseKey(q[i].0).predicateName)
  {
    if q != [] {
      var es := FormatFilters(q);
      FormatFiltersEntries(q);
      assert forall i :: 0 <= i < |q| ==> es[i].1 == Entry(q[i].0, q[i].1);
      assert forall i :: 0 <= i < |q| ==> KeyCondition(q[i].0, q[i].1) == EntryCondition(es[i].1);
      BuildAppends(scope, es);
    }
  }

  /** A key `<column>_<handler>` is dispatched to that handler, on that column, with the value unchanged. */
  lemma KeyConditionHandler(c: string, p: Predicate, value: string)
    ensures KeyCondition(c + "_" + Name(p), value) == Some(Condition(p, c, value))
  {
    assert Name(p) != "" && '_' !in Name(p) by {
      match p
      case Eq => assert Name(p) == ['e', 'q'];
      case Cont => assert Name(p) == ['c', 'o', 'n', 't'];
      case NotCont => assert Name(p) == ['n', 'o', 't', 'c', 'o', 'n', 't'];
      case Start => assert Name(p) == ['s', 't', 'a', 'r', 't'];
      case End => assert Name(p) == ['e', 'n', 'd'];
      case Gt => assert Name(p) == ['g', 't'];
      case Lt => assert Name(p) == ['l', 't'];
    }
    ParseKeyLastUnderscore(c, Name(p));
    PredicateNamedName(p);
  }

  /** A key whose last part names no handler has no condition: `send` fails. */
  lemma KeyConditionUnknown(c: string, name: string, value: string)
    requires name != "" && '_' !in name && PredicateNamed(name) == None
    ensures KeyCondition(c + "_" + name, value) == None
  {
    ParseKeyLastUnderscore(c, name);
  }

  /** Row `x` satisfies the condition of key `key` with value `value`. */
  predicate KeyHolds(key: string, value: string, x: Row) {
    match KeyCondition(key, value)
    case Some(c) => Holds(c, x)
    case None => false
  }

  /**
   * Applied and executed, the filter keeps exactly the rows of the unfiltered
   * query that satisfy every key's condition, in the unfiltered order: each
   * filter narrows the scope left by the previous ones.
   */
  lemma FilterNarrows(scope: Relation, q: Hash<string>, r: Relation, base: seq<Row>)
    requires DistinctKeys(q)
    requires FilterScope(scope, q) == Ok(r)
    requires Execute(scope) == Ok(base)
    requires Execute(r).Ok?
    ensures exists added :: r.conditions == scope.conditions + added && Execute(r).value == Select(base, added)
    ensures forall x :: x in Execute(r).value <==>
      x in base && forall i :: 0 <= i < |q| ==> KeyHolds(q[i].0, q[i].1, x)
  {
    var added := FilterAdded(scope, q, r);
    assert base == Select(scope.table.rows, scope.conditions);
    assert Execute(r).value == Select(r.table.rows, r.conditions);
    SelectNarrows(r.table.rows, scope.conditions, added);
    forall x ensures AllHold(added, x) <==> forall i :: 0 <= i < |q| ==> KeyHolds(q[i].0, q[i].1, x) {
      AddedHold(q, added, x);
    }
  }

  /** When every key names a handler, `filter` succeeds. */
  lemma FilterSucceeds(scope: Relation, q: Hash<string>)
    requires DistinctKeys(q)
    requires forall i :: 0 <= i < |q| ==> KeyCondition(q[i].0, q[i].1).Some?
    ensures FilterScope(scope, q).Ok?
  {
    FilterOutcome(scope, q);
  }

  /** The conditions a successful filter adds after the scope's own, one per key. */
  lemma FilterAdded(scope: Relation, q: Hash<string>, r: Relation) returns (added: seq<Sql>)
    requires DistinctKeys(q)
    requires FilterScope(scope, q) == Ok(r)
    ensures r.table == scope.table && r.conditions == scope.conditions + added
    ensures |added| == |q| && forall i :: 0 <= i < |q| ==> KeyCondition(q[i].0, q[i].1) == Some(added[i])
  {
    if q == [] {
      added := [];
    } else {
      var es := FormatFilters(q);
      FormatFiltersEntries(q);
      assert forall i :: 0 <= i < |q| ==> es[i].1 == Entry(q[i].0, q[i].1);
      BuildAppends(scope, es);
      added := AddedConditions(scope, es, r);
    }
  }

  /** A filter with a single key that has a handler adds exactly that handler's condition. */
  lemma FilterOneKey(scope: Relation, key: string, value: string, c: Sql)
    requires KeyCondition(key, value) == Some(c)
    ensures FilterScope(scope, [(key, value)]) == Ok(scope.Where(c))
  {
    var q := [(key, value)];
    assert DistinctKeys(q);
    FilterSucceeds(scope, q);
    var r := FilterScope(scope, q).value;
    var added := FilterAdded(scope, q, r);
    assert added == [c];
  }

  /** A scope that extends another by one condition per entry splits into the old conditions and the added ones. */
  lemma AddedConditions(scope: Relation, es: Hash<FilterEntry>, r: Relation) returns (added: seq<Sql>)
    requires r.table == scope.table
    requires |r.conditions| == |scope.conditions| + |es|
    requires r.conditions[..|scope.conditions|] == scope.conditions
    requires forall i :: 0 <= i < |es| ==> Some(r.conditions[|scope.conditions| + i]) == EntryCondition(es[i].1)
    ensures r.conditions == scope.conditions + added
    ensures |added| == |es| && forall i :: 0 <= i < |es| ==> EntryCondition(es[i].1) == Some(added[i])
  {
    var n := |scope.conditions|;
    added := r.conditions[n..];
    assert r.conditions == r.conditions[..n] + added;
    forall i | 0 <= i < |es| ensures EntryCondition(es[i].1) == Some(added[i]) {
      assert added[i] == r.conditions[n + i];
    }
  }

  /** A row satisfies the added conditions exactly when it satisfies every key's condition. */
  lemma AddedHold(q: Hash<string>, added: seq<Sql>, x: Row)
    requires |added| == |q| && forall i :: 0 <= i < |q| ==> KeyCondition(q[i].0, q[i].1) == Some(added[i])
    ensures AllHold(added, x) <==> forall i :: 0 <= i < |q| ==> KeyHolds(q[i].0, q[i].1, x)
  {
  }

  /** Row `x` meets what key `key` asks for value `value`: the predicate's meaning on the column's value. */
  predicate KeyMeans(key: string, value: string, x: Row) {
    var parts := ParseKey(key);
    match parts.predicateName
    case None => false
    case Some(name) =>
      match PredicateNamed(name)
      case None => false
      case Some(p) => parts.column in x && Meaning(p, x[parts.column], value)
  }

  /** For a wildcard-free value, a key's SQL condition holds exactly when its meaning does. */
  lemma KeyHoldsMeans(key: string, value: string, x: Row)
    requires NoWildcards(value)
    ensures KeyHolds(key, value, x) <==> KeyMeans(key, value, x)
  {
    var parts := ParseKey(key);
    assert Entry(key, value) == FilterEntry(value, parts.column, parts.predicateName);
    if parts.predicateName.Some? && PredicateNamed(parts.predicateName.value).Some? && parts.column in x {
      ConditionMeaning(PredicateNamed(parts.predicateName.value).value, parts.column, value, x);
    }
  }

  /**
   * For wildcard-free values the executed filter is the conjunction of the
   * predicates' meanings: a row of the unfiltered query is kept exactly when
   * it meets every key.
   */
  lemma FilterMeaning(scope: Relation, q: Hash<string>, r: Relation, base: seq<Row>)
    requires DistinctKeys(q)
    requires forall i :: 0 <= i < |q| ==> NoWildcards(q[i].1)
    requires FilterScope(scope, q) == Ok(r)
    requires Execute(scope) == Ok(base)
    requires Execute(r).Ok?
    ensures forall x :: x in Execute(r).value <==>
      x in base && forall i :: 0 <= i < |q| ==> KeyMeans(q[i].0, q[i].1, x)
  {
    FilterNarrows(scope, q, r, base);
    forall x, i | 0 <= i < |q| ensures KeyHolds(q[i].0, q[i].1, x) <==> KeyMeans(q[i].0, q[i].1, x) {
      KeyHoldsMeans(q[i].0, q[i].1, x);
    }
  }

  /**
   * The filter object. `filters` is the `q` hash as given and `formatted` the
   * hash that `format_filters` builds from it (the source keeps both, one
   * after the other, in `@filters`); `scope` is narrowed in place.
   */
  class Filter {
    var scope: Relation
    var filters: Hash<string>
    var formatted: Hash<FilterEntry>

    /** `Filter.new(scope, params)`: a missing `q` parameter is an empty hash. */
    constructor(scope: Relation, q: Option<Hash<string>>)
      ensures this.scope == scope && filters == q.GetOr([]) && formatted == []
    {
      this.scope := scope;
      filters := q.GetOr([]);
      formatted := [];
    }

    /** `filter`: returns the scope unchanged when there are no filters, else the narrowed scope or the dispatch error. */
    method Apply() returns (result: Result<Relation, FilterError>)
      modifies this
      ensures result == FilterScope(old(scope), old(filters))
      ensures filters == old(filters)
      ensures old(filters) == [] ==> scope == old(scope) && formatted == old(formatted)
      ensures old(filters) != [] ==>
        formatted == FormatFilters(filters) && scope == Build(old(scope), formatted).scope
      ensures result.Ok? ==> result.value == scope
    {
      if filters == [] {
        return Ok(scope);
      }
      formatted := FormatFilters(filters);
      var err := BuildFilterScope();
      match err
      case Some(e) => result := Err(e);
      case None => result := Ok(scope);
    }

    /** `build_filter_scope`: dispatches every formatted entry in order, stopping at the first one without a handler. */
    method BuildFilterScope() returns (err: Option<FilterError>)
      modifies this`scope
      ensures Build(old(scope), formatted) == BuildState(scope, err)
    {
      ghost var start := scope;
      var i := 0;
      while i < |formatted|
        invariant 0 <= i <= |formatted|
        invariant Build(start, formatted[..i]) == BuildState(scope, None)
      {
        assert formatted[..i + 1][..i] == formatted[..i];
        match Dispatch(scope, formatted[i].1)
        case Err(e) =>
          BuildStops(start, formatted, i + 1);
          return Some(e);
        case Ok(next) =>
          scope := next;
        i := i + 1;
      }
      assert formatted[..i] == formatted;
      return None;
    }
  }
}
