/**
 * The presenter schema (app/presenters/base_presenter.rb). Each presenter
 * class carries four allow-lists in class-level instance variables, set by
 * the declarations `related_to`, `sort_by`, `filter_by` and `build_with`;
 * each presenter instance holds the object it presents, the request
 * parameters, its options and a `data` map that `as_json` returns.
 */
module Presenters {
  import opened Wrappers
  import opened RubyHash

  /** A declaration argument: a Ruby symbol or a string; `to_s` gives its name either way. */
  datatype Arg = Sym(name: string) | Str(text: string)

  function ToS(a: Arg): string {
    match a
    case Sym(n) => n
    case Str(t) => t
  }

  /** `args.map(&:to_s)` */
  function ToStrings(args: seq<Arg>): (r: seq<string>)
    ensures |r| == |args|
    ensures forall i :: 0 <= i < |args| && args[i].Sym? ==> r[i] == args[i].name
    ensures forall i :: 0 <= i < |args| && args[i].Str? ==> r[i] == args[i].text
  {
    seq(|args|, i requires 0 <= i < |args| => ToS(args[i]))
  }

  /** The four lists a presenter class declares. */
  datatype ListKind = Relations | SortAttributes | FilterAttributes | BuildAttributes

  /**
   * The class-level state of one presenter class. A list is `None` while the
   * class has not set it: class-level instance variables are not inherited,
   * so a subclass reads nil until it declares its own.
   */
  datatype Schema = Schema(
    relations: Option<seq<string>>,
    sortAttributes: Option<seq<string>>,
    filterAttributes: Option<seq<string>>,
    buildAttributes: Option<seq<string>>)
  {
    function List(k: ListKind): Option<seq<string>> {
      match k
      case Relations => relations
      case SortAttributes => sortAttributes
      case FilterAttributes => filterAttributes
      case BuildAttributes => buildAttributes
    }

    /** The schema with list `k` replaced by `v` (an attribute writer such as `relations=`). */
    function With(k: ListKind, v: Option<seq<string>>): (r: Schema)
      ensures r.List(k) == v
      ensures forall j :: j != k ==> r.List(j) == List(j)
    {
      match k
      case Relations => this.(relations := v)
      case SortAttributes => this.(sortAttributes := v)
      case FilterAttributes => this.(filterAttributes := v)
      case BuildAttributes => this.(buildAttributes := v)
    }
  }

  /** `BasePresenter` itself starts with four empty lists. */
  const BaseSchema := Schema(Some([]), Some([]), Some([]), Some([]))

  /** A subclass starts with none of the lists set. */
  const SubclassSchema := Schema(None, None, None, None)

  /**
   * A declaration: list `k` becomes the arguments' names, in argument order;
   * the other three lists are left as they were.
   */
  function Declare(s: Schema, k: ListKind, args: seq<Arg>): (r: Schema)
    ensures r.List(k).Some? && |r.List(k).value| == |args|
    ensures forall i :: 0 <= i < |args| ==> r.List(k).value[i] == ToS(args[i])
    ensures forall j :: j != k ==> r.List(j) == s.List(j)
  {
    s.With(k, Some(ToStrings(args)))
  }

  /** A repeated declaration of the same list overwrites the earlier one. */
  lemma DeclareOverwrites(s: Schema, k: ListKind, a: seq<Arg>, b: seq<Arg>)
    ensures Declare(Declare(s, k, a), k, b) == Declare(s, k, b)
  {
    var r1 := Declare(Declare(s, k, a), k, b);
    var r2 := Declare(s, k, b);
    assert forall j :: r1.List(j) == r2.List(j);
    assert r1.relations == r2.relations by { assert r1.List(Relations) == r2.List(Relations); }
    assert r1.sortAttributes == r2.sortAttributes by { assert r1.List(SortAttributes) == r2.List(SortAttributes); }
    assert r1.filterAttributes == r2.filterAttributes by { assert r1.List(FilterAttributes) == r2.List(FilterAttributes); }
    assert r1.buildAttributes == r2.buildAttributes by { assert r1.List(BuildAttributes) == r2.List(BuildAttributes); }
  }

  /** Declarations of different lists do not interfere: their order does not matter. */
  lemma DeclareCommutes(s: Schema, k1: ListKind, a: seq<Arg>, k2: ListKind, b: seq<Arg>)
    requires k1 != k2
    ensures Declare(Declare(s, k1, a), k2, b) == Declare(Declare(s, k2, b), k1, a)
  {
    var r1 := Declare(Declare(s, k1, a), k2, b);
    var r2 := Declare(Declare(s, k2, b), k1, a);
    assert r1.relations == r2.relations by { assert r1.List(Relations) == r2.List(Relations); }
    assert r1.sortAttributes == r2.sortAttributes by { assert r1.List(SortAttributes) == r2.List(SortAttributes); }
    assert r1.filterAttributes == r2.filterAttributes by { assert r1.List(FilterAttributes) == r2.List(FilterAttributes); }
    assert r1.buildAttributes == r2.buildAttributes by { assert r1.List(BuildAttributes) == r2.List(BuildAttributes); }
  }

  /** Symbols and strings name the same attribute: `related_to :books` and `related_to 'books'` agree. */
  lemma DeclareSymbolOrString(s: Schema, k: ListKind, names: seq<string>)
    ensures Declare(s, k, seq(|names|, i requires 0 <= i < |names| => Sym(names[i])))
         == Declare(s, k, seq(|names|, i requires 0 <= i < |names| => Str(names[i])))
    ensures Declare(s, k, seq(|names|, i requires 0 <= i < |names| => Sym(names[i]))).List(k) == Some(names)
  {
    var syms := seq(|names|, i requires 0 <= i < |names| => Sym(names[i]));
    var strs := seq(|names|, i requires 0 <= i < |names| => Str(names[i]));
    assert ToStrings(syms) == names;
    assert ToStrings(strs) == names;
  }

  /** One presenter class (`BasePresenter` or a subclass) and its class-level allow-lists. */
  class PresenterClass {
    var relations: Option<seq<string>>
    var sortAttributes: Option<seq<string>>
    var filterAttributes: Option<seq<string>>
    var buildAttributes: Option<seq<string>>

    function Declared(): Schema
      reads this
    {
      Schema(relations, sortAttributes, filterAttributes, buildAttributes)
    }

    /** `BasePresenter`: the four lists start empty. */
    constructor Base()
      ensures Declared() == BaseSchema
    {
      relations, sortAttributes, filterAttributes, buildAttributes := Some([]), Some([]), Some([]), Some([]);
    }

    /** A subclass of `BasePresenter`: none of the lists is set yet. */
    constructor Subclass()
      ensures Declared() == SubclassSchema
    {
      relations, sortAttributes, filterAttributes, buildAttributes := None, None, None, None;
    }

    /** `related_to(*args)` */
    method RelatedTo(args: seq<Arg>)
      modifies this
      ensures Declared() == Declare(old(Declared()), Relations, args)
    {
      relations := Some(ToStrings(args));
    }

    /** `sort_by(*args)` */
    method SortBy(args: seq<Arg>)
      modifies this
      ensures Declared() == Declare(old(Declared()), SortAttributes, args)
    {
      sortAttributes := Some(ToStrings(args));
    }

    /** `filter_by(*args)` */
    method FilterBy(args: seq<Arg>)
      modifies this
      ensures Declared() == Declare(old(Declared()), FilterAttributes, args)
    {
      filterAttributes := Some(ToStrings(args));
    }

    /** `build_with(*args)` */
    method BuildWith(args: seq<Arg>)
      modifies this
      ensures Declared() == Declare(old(Declared()), BuildAttributes, args)
    {
      buildAttributes := Some(ToStrings(args));
    }

    /** The class-level attribute writers `relations=`, `sort_attributes=`, `filter_attributes=`, `build_attributes=`. */
    method SetList(k: ListKind, v: Option<seq<string>>)
      modifies this
      ensures Declared() == old(Declared()).With(k, v)
    {
      match k
      case Relations => relations := v;
      case SortAttributes => sortAttributes := v;
      case FilterAttributes => filterAttributes := v;
      case BuildAttributes => buildAttributes := v;
    }
  }

  /**
   * A presenter instance: the presented object `O`, the request parameters
   * `P`, the options and the `data` map, whose values are of type `V`.
   */
  class BasePresenter<O, P, V> {
    /** `object` (a reserved word in Dafny) */
    var obj: O
    var params: P
    var options: Hash<V>
    var data: Hash<V>

    /** `initialize(object, params, options = {})`: `data` starts as an empty hash. */
    constructor(obj: O, params: P, options: Option<Hash<V>>)
      ensures this.obj == obj && this.params == params
      ensures this.options == options.GetOr([])
      ensures data == []
    {
      this.obj := obj;
      this.params := params;
      this.options := options.GetOr([]);
      data := [];
    }

    /** `as_json`: the data map, as it stands. */
    method AsJson() returns (r: Hash<V>)
      ensures r == data
    {
      r := data;
    }

    /** `object=` */
    method SetObj(o: O)
      modifies this
      ensures obj == o && params == old(params) && options == old(options) && data == old(data)
    {
      obj := o;
    }

    /** `params=` */
    method SetParams(p: P)
      modifies this
      ensures params == p && obj == old(obj) && options == old(options) && data == old(data)
    {
      params := p;
    }

    /** `data=` */
    method SetData(d: Hash<V>)
      modifies this
      ensures data == d && obj == old(obj) && params == old(params) && options == old(options)
    {
      data := d;
    }
  }
}
