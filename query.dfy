/**
 * The part of ActiveRecord that the filter relies on: a relation is a table
 * together with the SQL conditions accumulated by `where`, and executing it
 * keeps the rows that satisfy every condition, in table order. Column values
 * are strings; `LIKE` patterns use `%` (any run of characters) and `_` (any
 * one character).
 */
module Query {
  import opened Wrappers
  import opened Text

  /** A record: column name to value. */
  type Row = map<string, string>

  datatype Table = Table(columns: set<string>, rows: seq<Row>)

  /** One SQL condition as the filter writes it. */
  datatype Sql =
    | Equals(column: string, operand: string)   // column = value
    | Like(column: string, operand: string)     // column LIKE pattern
    | NotLike(column: string, operand: string)  // column NOT LIKE pattern
    | Greater(column: string, operand: string)  // column > value
    | Less(column: string, operand: string)     // column < value

  datatype Relation = Relation(table: Table, conditions: seq<Sql>) {
    /** `relation.where(...)`: a new relation with one more condition. */
    function Where(c: Sql): (r: Relation)
      ensures r.table == table
      ensures forall row :: AllHold(r.conditions, row) <==> AllHold(conditions, row) && Holds(c, row)
    {
      var r := Relation(table, conditions + [c]);
      assert forall i :: 0 <= i < |conditions| ==> r.conditions[i] == conditions[i];
      assert r.conditions[|conditions|] == c;
      r
    }
  }

  datatype QueryError = UnknownColumn(column: string)

  /** SQL `LIKE` matching of text `t` against pattern `p` (no escape character). */
  predicate LikeMatch(p: string, t: string): (r: bool)
    ensures '%' !in p ==> r ==> |t| == |p|
    ensures NoWildcards(p) ==> (r <==> t == p)
    decreases |p|, |t|
  {
    if p == [] then t == []
    else if p[0] == '%' then LikeMatch(p[1..], t) || (t != [] && LikeMatch(p, t[1..]))
    else t != [] && (p[0] == '_' || p[0] == t[0]) && LikeMatch(p[1..], t[1..])
  }

  predicate NoWildcards(v: string) {
    '%' !in v && '_' !in v
  }

  /**
   * A row meets a condition. A condition on a column the row lacks never
   * holds, and `>` and `<` on the same value exclude each other and `=`.
   */
  predicate Holds(c: Sql, row: Row): (r: bool)
    ensures r ==> c.column in row
    ensures r && c.Greater? ==> row[c.column] != c.operand && !LexLess(row[c.column], c.operand)
    ensures r && c.Less? ==> row[c.column] != c.operand && !LexLess(c.operand, row[c.column])
  {
    c.column in row &&
    var x := row[c.column];
    LexTrichotomy(x, c.operand);
    match c
    case Equals(_, v) => x == v
    case Like(_, p) => LikeMatch(p, x)
    case NotLike(_, p) => !LikeMatch(p, x)
    case Greater(_, v) => LexLess(v, x)
    case Less(_, v) => LexLess(x, v)
  }

  predicate AllHold(cs: seq<Sql>, row: Row) {
    forall i :: 0 <= i < |cs| ==> Holds(cs[i], row)
  }

  /** The rows satisfying every condition, in their original order. */
  function Select(rows: seq<Row>, cs: seq<Sql>): (r: seq<Row>)
    ensures |r| <= |rows|
    ensures forall x :: x in r <==> x in rows && AllHold(cs, x)
  {
    if rows == [] then []
    else (if AllHold(cs, rows[0]) then [rows[0]] else []) + Select(rows[1..], cs)
  }

  /** The first condition naming a column the table does not have. */
  function FirstUnknownColumn(cs: seq<Sql>, columns: set<string>): (r: Option<string>)
    ensures r == None <==> forall i :: 0 <= i < |cs| ==> cs[i].column in columns
    ensures r.Some? ==> r.value !in columns
  {
    if cs == [] then None
    else if cs[0].column !in columns then Some(cs[0].column)
    else FirstUnknownColumn(cs[1..], columns)
  }

  /** Running the query: an unknown column is a database error, otherwise the selected rows. */
  function Execute(r: Relation): (res: Result<seq<Row>, QueryError>)
    ensures res.Ok? <==> forall i :: 0 <= i < |r.conditions| ==> r.conditions[i].column in r.table.columns
    ensures res.Ok? ==> forall x :: x in res.value <==> x in r.table.rows && AllHold(r.conditions, x)
  {
    match FirstUnknownColumn(r.conditions, r.table.columns)
    case Some(c) => Err(UnknownColumn(c))
    case None => Ok(Select(r.table.rows, r.conditions))
  }

  /** Adding conditions narrows the previous result: selecting by `a + b` is selecting by `a`, then by `b`. */
  lemma {:induction false} SelectNarrows(rows: seq<Row>, a: seq<Sql>, b: seq<Sql>)
    ensures Select(rows, a + b) == Select(Select(rows, a), b)
  {
    if rows != [] {
      SelectNarrows(rows[1..], a, b);
      var x := rows[0];
      assert AllHold(a + b, x) <==> AllHold(a, x) && AllHold(b, x) by {
        if AllHold(a, x) && AllHold(b, x) {
          forall i | 0 <= i < |a + b| ensures Holds((a + b)[i], x) {
            if i >= |a| { assert (a + b)[i] == b[i - |a|]; }
          }
        }
        if AllHold(a + b, x) {
          forall i | 0 <= i < |a| ensures Holds(a[i], x) {
            assert (a + b)[i] == a[i];
          }
          forall i | 0 <= i < |b| ensures Holds(b[i], x) {
            assert (a + b)[|a| + i] == b[i];
          }
        }
      }
      var sa := Select(rows, a);
      if AllHold(a, x) {
        assert sa == [x] + Select(rows[1..], a);
        assert sa[0] == x && sa[1..] == Select(rows[1..], a);
      } else {
        assert sa == Select(rows[1..], a);
      }
    }
  }

  /** A literal (wildcard-free) pattern start must match the text's start exactly. */
  lemma {:induction false} LikeLiteralThen(v: string, q: string, t: string)
    requires NoWildcards(v)
    ensures LikeMatch(v + q, t) <==> IsPrefix(v, t) && LikeMatch(q, t[|v|..])
  {
    if v == [] {
      assert v + q == q;
    } else {
      assert (v + q)[0] == v[0] && (v + q)[1..] == v[1..] + q;
      LikeLiteralThen(v[1..], q, if t == [] then t else t[1..]);
      if t != [] {
        if |v| <= |t| {
          assert t[1..][|v| - 1..] == t[|v|..];
        }
        assert IsPrefix(v, t) <==> v[0] == t[0] && IsPrefix(v[1..], t[1..]) by {
          if v[0] == t[0] && IsPrefix(v[1..], t[1..]) {
            assert t[..|v|] == [t[0]] + t[1..][..|v| - 1];
          }
          if IsPrefix(v, t) {
            assert t[1..][..|v| - 1] == t[..|v|][1..];
          }
        }
      }
    }
  }

  /** `%` matches anything. */
  lemma {:induction false} LikePercentAny(t: string)
    ensures LikeMatch("%", t)
  {
    if t != [] {
      LikePercentAny(t[1..]);
    }
  }

  /** A leading `%` lets the rest of the pattern match any tail of the text. */
  lemma {:induction false} LikeLeadingPercent(q: string, t: string)
    ensures LikeMatch("%" + q, t) <==> exists i :: 0 <= i <= |t| && LikeMatch(q, t[i..])
  {
    assert ("%" + q)[0] == '%' && ("%" + q)[1..] == q;
    if t == [] {
      assert t[0..] == t;
    } else {
      LikeLeadingPercent(q, t[1..]);
      assert t[0..] == t;
      assert forall i :: 1 <= i <= |t| ==> t[1..][i - 1..] == t[i..];
      if exists i :: 0 <= i <= |t| && LikeMatch(q, t[i..]) {
        var i :| 0 <= i <= |t| && LikeMatch(q, t[i..]);
        if i > 0 { assert LikeMatch(q, t[1..][i - 1..]); }
      }
    }
  }

  /** `value%` matches the texts that start with `value`. */
  lemma LikePrefix(v: string, t: string)
    requires NoWildcards(v)
    ensures LikeMatch(v + "%", t) <==> IsPrefix(v, t)
  {
    LikeLiteralThen(v, "%", t);
    if IsPrefix(v, t) { LikePercentAny(t[|v|..]); }
  }

  /** `%value` matches the texts that end with `value`. */
  lemma LikeSuffix(v: string, t: string)
    requires NoWildcards(v)
    ensures LikeMatch("%" + v, t) <==> IsSuffix(v, t)
  {
    LikeLeadingPercent(v, t);
    if IsSuffix(v, t) {
      assert LikeMatch(v, t[|t| - |v|..]);
    }
  }

  /** `%value%` matches the texts that contain `value`. */
  lemma LikeSubstring(v: string, t: string)
    requires NoWildcards(v)
    ensures LikeMatch("%" + v + "%", t) <==> IsSubstring(v, t)
  {
    assert "%" + v + "%" == "%" + (v + "%");
    LikeLeadingPercent(v + "%", t);
    forall i | 0 <= i <= |t| ensures LikeMatch(v + "%", t[i..]) <==> IsPrefix(v, t[i..]) {
      LikePrefix(v, t[i..]);
    }
    SubstringAsPrefix(v, t);
  }
}
