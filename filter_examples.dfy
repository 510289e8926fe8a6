/** The filter examples of the controller and query-builder specs, worked through the model. */
module FilterExamples {
  import opened Wrappers
  import opened Text
  import opened Query
  import opened RubyHash
  import opened Filtering

  /** `q[name_cont]=Reilly` becomes `name LIKE '%Reilly%'`. */
  lemma NameContEntry()
    ensures Entry("name_cont", "Reilly") == FilterEntry("Reilly", "name", Some("cont"))
  {
    ParseKeyLastUnderscore("name", "cont");
    assert "name" + "_" + "cont" == "name_cont";
  }

  lemma NameContCondition()
    ensures KeyCondition("name_cont", "Reilly") == Some(Like("name", "%Reilly%"))
  {
    KeyConditionHandler("name", Cont, "Reilly");
    assert "name" + "_" + Name(Cont) == "name_cont";
    assert "%" + "Reilly" + "%" == "%Reilly%";
  }

  /** A predicate other than the seven has no handler. */
  lemma UnknownPredicateExample()
    ensures KeyCondition("title_like", "x") == None
  {
    assert '_' !in "like" by {
      assert "like" == ['l', 'i', 'k', 'e'];
    }
    KeyConditionUnknown("title", "like", "x");
    assert "title" + "_" + "like" == "title_like";
  }

  /** With `q[name_cont]=Reilly` the filter adds exactly `name LIKE '%Reilly%'` to the scope. */
  lemma NameContFilter(scope: Relation)
    ensures FilterScope(scope, [("name_cont", "Reilly")]) == Ok(scope.Where(Like("name", "%Reilly%")))
  {
    NameContCondition();
    FilterOneKey(scope, "name_cont", "Reilly", Like("name", "%Reilly%"));
  }

  /** A text without the letter R cannot contain "Reilly". */
  lemma NoReilly(t: string)
    requires 'R' !in t
    ensures !IsSubstring("Reilly", t)
  {
    if IsSubstring("Reilly", t) {
      SubstringFirst("Reilly", t);
    }
  }

  /** One condition that only the first of three rows meets selects that row alone. */
  lemma SelectFirstOfThree(x: Row, y: Row, z: Row, c: Sql)
    requires Holds(c, x) && !Holds(c, y) && !Holds(c, z)
    ensures Select([x, y, z], [c]) == [x]
  {
    assert [c][0] == c;
    assert AllHold([c], x) && !AllHold([c], y) && !AllHold([c], z);
    var rows := [x, y, z];
    assert rows[1..] == [y, z] && rows[1..][1..] == [z];
    assert Select([z], [c]) == [] by {
      assert [z][1..] == [];
    }
  }

  /** Running `name LIKE '%Reilly%'` over the three publishers of the controller spec keeps O'Reilly only. */
  lemma ReillyRows(oreilly: Row, devMedia: Row, superBooks: Row)
    requires "name" in oreilly && oreilly["name"] == "O'Reilly"
    requires "name" in devMedia && devMedia["name"] == "Dev Media"
    requires "name" in superBooks && superBooks["name"] == "Super Books"
    ensures Select([oreilly, devMedia, superBooks], [Like("name", "%Reilly%")]) == [oreilly]
  {
    var c := Like("name", "%Reilly%");
    assert c == Condition(Cont, "name", "Reilly");
    ConditionMeaning(Cont, "name", "Reilly", oreilly);
    ConditionMeaning(Cont, "name", "Reilly", devMedia);
    ConditionMeaning(Cont, "name", "Reilly", superBooks);
    assert oreilly["name"][2..8] == "Reilly";
    NoReilly(devMedia["name"]);
    NoReilly(superBooks["name"]);
    SelectFirstOfThree(oreilly, devMedia, superBooks, c);
  }

  /** The `q[name_cont]=Reilly` example: of three publishers only the one whose name contains "Reilly" remains. */
  lemma NameContExample(q: Hash<string>, oreilly: Row, devMedia: Row, superBooks: Row)
    requires q == [("name_cont", "Reilly")]
    requires "name" in oreilly && oreilly["name"] == "O'Reilly"
    requires "name" in devMedia && devMedia["name"] == "Dev Media"
    requires "name" in superBooks && superBooks["name"] == "Super Books"
    ensures var scope := Relation(Table({"name"}, [oreilly, devMedia, superBooks]), []);
      && FilterScope(scope, q).Ok?
      && Execute(FilterScope(scope, q).value) == Ok([oreilly])
  {
    var scope := Relation(Table({"name"}, [oreilly, devMedia, superBooks]), []);
    NameContFilter(scope);
    var r := scope.Where(Like("name", "%Reilly%"));
    assert r.conditions == [Like("name", "%Reilly%")];
    assert FirstUnknownColumn(r.conditions, r.table.columns) == None;
    ReillyRows(oreilly, devMedia, superBooks);
  }
}
