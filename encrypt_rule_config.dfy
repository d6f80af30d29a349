/** The encrypt-rule configuration of one schema: an ordered list of table
    rules and a map from encryptor name to algorithm configuration, plus the
    removal step that both the Alter and the Drop handler run on it. */
module EncryptRuleConfig {
  import opened NameLists

  datatype Option<T> = None | Some(value: T)

  /** An algorithm type name with its properties. */
  datatype AlgorithmConfiguration = AlgorithmConfiguration(typeName: string, props: map<string, string>)

  /** One encrypted column; `encryptorName` is a key of the encryptor map. */
  datatype EncryptColumnRule = EncryptColumnRule(
    logicColumn: string,
    cipherColumn: string,
    assistedQueryColumn: string,
    plainColumn: string,
    encryptorName: string)

  /** The encrypt rule of one table. */
  datatype EncryptTableRule = EncryptTableRule(name: string, columns: seq<EncryptColumnRule>)

  /** Why a `check` phase rejected a statement. */
  datatype RuleError =
    | EncryptRuleNotExisted(schemaName: string, tables: seq<string>)
    | InvalidEncryptors(encryptors: seq<string>)

  datatype CheckResult = Passed | Failed(error: RuleError)

  /** The table names, in list order (`getExistTables`). */
  function TableNames(tables: seq<EncryptTableRule>): (names: seq<string>)
    ensures |names| == |tables|
    ensures forall i :: 0 <= i < |tables| ==> names[i] == tables[i].name
  {
    if tables == [] then [] else [tables[0].name] + TableNames(tables[1..])
  }

  /** Position of the rule that the lookup by name on a sequential stream
      of the list returns: the first rule called `name`, or `|tables|`
      when there is none. */
  function FirstNamed(tables: seq<EncryptTableRule>, name: string): (i: nat)
    ensures i <= |tables|
    ensures i < |tables| <==> name in TableNames(tables)
    ensures i < |tables| ==> tables[i].name == name
  {
    if tables == [] then 0
    else if tables[0].name == name then 0
    else
      assert TableNames(tables) == [tables[0].name] + TableNames(tables[1..]);
      1 + FirstNamed(tables[1..], name)
  }

  /** No rule before the one the lookup finds carries its name. */
  lemma {:induction false} FirstNamedIsFirst(tables: seq<EncryptTableRule>, name: string)
    ensures forall j :: 0 <= j < FirstNamed(tables, name) ==> tables[j].name != name
    decreases |tables|
  {
    if tables != [] && tables[0].name != name {
      FirstNamedIsFirst(tables[1..], name);
      forall j | 0 < j < FirstNamed(tables, name) ensures tables[j].name != name {
        assert tables[j] == tables[1..][j - 1];
      }
    }
  }

  /** The list after `remove` of the rule that the lookup of `name` found. */
  function RemoveFirstNamed(tables: seq<EncryptTableRule>, name: string): seq<EncryptTableRule>
    requires name in TableNames(tables)
  {
    var i := FirstNamed(tables, name);
    tables[..i] + tables[i + 1..]
  }

  /** Every lookup `findAny().get()` of `names`, taken in order, finds a rule
      in what the earlier removals left. */
  predicate LookupsSucceed(tables: seq<EncryptTableRule>, names: seq<string>)
    decreases |names|
  {
    names == [] || (names[0] in TableNames(tables) && LookupsSucceed(RemoveFirstNamed(tables, names[0]), names[1..]))
  }

  /** The list after removing, for each name in turn, the rule it finds. */
  function RemoveEach(tables: seq<EncryptTableRule>, names: seq<string>): seq<EncryptTableRule>
    requires LookupsSucceed(tables, names)
    decreases |names|
  {
    if names == [] then tables else RemoveEach(RemoveFirstNamed(tables, names[0]), names[1..])
  }

  /** The rules those lookups find, in the order of `names`. */
  function FoundTables(tables: seq<EncryptTableRule>, names: seq<string>): seq<EncryptTableRule>
    requires LookupsSucceed(tables, names)
    decreases |names|
  {
    if names == [] then []
    else [tables[FirstNamed(tables, names[0])]] + FoundTables(RemoveFirstNamed(tables, names[0]), names[1..])
  }

  /** The encryptor names that the columns of `tables` refer to. */
  function UsedEncryptors(tables: seq<EncryptTableRule>): set<string>
  {
    set t, c | t in tables && c in t.columns :: c.encryptorName
  }

  /** The tables whose names are not in `names`, in list order. */
  function Unnamed(tables: seq<EncryptTableRule>, names: seq<string>): seq<EncryptTableRule>
    decreases |tables|
  {
    if tables == [] then []
    else (if tables[0].name in names then [] else [tables[0]]) + Unnamed(tables[1..], names)
  }

  /** The mutable configuration object shared with the schema's rule set. */
  class EncryptRuleConfiguration {
    var tables: seq<EncryptTableRule>
    var encryptors: map<string, AlgorithmConfiguration>

    constructor (tables: seq<EncryptTableRule>, encryptors: map<string, AlgorithmConfiguration>)
      ensures this.tables == tables && this.encryptors == encryptors
    {
      this.tables := tables;
      this.encryptors := encryptors;
    }

    /** For each name in turn: find the first rule with that name, remove it
        from the list, then remove from the encryptor map every encryptor
        name its columns use, whether or not another rule still uses it. */
    method RemoveTableRules(names: seq<string>)
      requires LookupsSucceed(tables, names)
      modifies this
      ensures (tables, encryptors) == AfterRemoval(old(tables), old(encryptors), names)
    {
      ghost var tables0, encryptors0 := tables, encryptors;
      var rest := names;
      while rest != []
        invariant LookupsSucceed(tables, rest)
        invariant AfterRemoval(tables, encryptors, rest) == AfterRemoval(tables0, encryptors0, names)
        decreases |rest|
      {
        RemoveStep(tables, encryptors, rest);
        RemoveTableRule(rest[0]);
        rest := rest[1..];
      }
      EmptyRemoval(tables, encryptors);
    }

    /** One turn of the loop: find the first rule called `name`, remove it
        from the list, then remove the encryptors its columns name. */
    method RemoveTableRule(name: string)
      requires name in TableNames(tables)
      modifies this
      ensures tables == RemoveFirstNamed(old(tables), name)
      ensures encryptors == old(encryptors) - ColumnEncryptors(old(tables)[FirstNamed(old(tables), name)].columns)
    {
      var k := FirstNamed(tables, name);
      var found := tables[k];
      tables := tables[..k] + tables[k + 1..];
      assert tables == RemoveFirstNamed(old(tables), name);
      RemoveColumnEncryptors(found.columns);
    }

    /** For each column in turn, remove the encryptor it names from the map. */
    method RemoveColumnEncryptors(columns: seq<EncryptColumnRule>)
      modifies this`encryptors
      ensures encryptors == old(encryptors) - ColumnEncryptors(columns)
    {
      var j := 0;
      while j < |columns|
        invariant 0 <= j <= |columns|
        invariant encryptors == old(encryptors) - ColumnEncryptors(columns[..j])
      {
        assert ColumnEncryptors(columns[..j + 1]) == ColumnEncryptors(columns[..j]) + {columns[j].encryptorName} by {
          assert columns[..j + 1] == columns[..j] + [columns[j]];
        }
        encryptors := encryptors - {columns[j].encryptorName};
        j := j + 1;
      }
      assert columns[..j] == columns;
    }
  }

  /** The encryptor names that `columns` refer to. */
  function ColumnEncryptors(columns: seq<EncryptColumnRule>): set<string>
  {
    set c | c in columns :: c.encryptorName
  }

  /** The list and the map after the removal loop over `names`: the list
      without the rules found, the map without every encryptor their
      columns name. */
  function AfterRemoval(tables: seq<EncryptTableRule>, encryptors: map<string, AlgorithmConfiguration>, names: seq<string>)
    : (seq<EncryptTableRule>, map<string, AlgorithmConfiguration>)
    requires LookupsSucceed(tables, names)
  {
    (RemoveEach(tables, names), encryptors - UsedEncryptors(FoundTables(tables, names)))
  }

  /** One turn of the removal loop, stated on the specification functions. */
  lemma RemoveStep(tables: seq<EncryptTableRule>, encryptors: map<string, AlgorithmConfiguration>, names: seq<string>)
    requires names != [] && LookupsSucceed(tables, names)
    ensures names[0] in TableNames(tables)
    ensures LookupsSucceed(RemoveFirstNamed(tables, names[0]), names[1..])
    ensures AfterRemoval(RemoveFirstNamed(tables, names[0]),
                         encryptors - ColumnEncryptors(tables[FirstNamed(tables, names[0])].columns), names[1..])
            == AfterRemoval(tables, encryptors, names)
  {
    var found := tables[FirstNamed(tables, names[0])];
    var next := RemoveFirstNamed(tables, names[0]);
    var rest := FoundTables(next, names[1..]);
    assert FoundTables(tables, names) == [found] + rest;
    UsedEncryptorsCons(found, rest);
    SubtractTwice(encryptors, ColumnEncryptors(found.columns), UsedEncryptors(rest));
  }

  lemma EmptyRemoval(tables: seq<EncryptTableRule>, encryptors: map<string, AlgorithmConfiguration>)
    ensures AfterRemoval(tables, encryptors, []) == (tables, encryptors)
  {
    assert UsedEncryptors([]) == {};
    assert encryptors - {} == encryptors;
  }

  lemma SubtractTwice(m: map<string, AlgorithmConfiguration>, a: set<string>, b: set<string>)
    ensures (m - a) - b == m - (a + b)
  {
  }

  lemma UsedEncryptorsCons(t: EncryptTableRule, rest: seq<EncryptTableRule>)
    ensures UsedEncryptors([t] + rest) == ColumnEncryptors(t.columns) + UsedEncryptors(rest)
  {
    var lhs, rhs := UsedEncryptors([t] + rest), ColumnEncryptors(t.columns) + UsedEncryptors(rest);
    forall x | x in rhs ensures x in lhs {
      if x !in UsedEncryptors(rest) {
        var c :| c in t.columns && c.encryptorName == x;
        assert t in [t] + rest;
      } else {
        var u, c :| u in rest && c in u.columns && c.encryptorName == x;
        assert u in [t] + rest;
      }
    }
  }

  /** The names after removing the rule at `i` are the old names without
      the one at `i`. */
  lemma TableNamesWithout(tables: seq<EncryptTableRule>, i: nat)
    requires i < |tables|
    ensures TableNames(tables[..i] + tables[i + 1..]) == TableNames(tables)[..i] + TableNames(tables)[i + 1..]
  {
    var r := tables[..i] + tables[i + 1..];
    var names := TableNames(tables);
    var expected := names[..i] + names[i + 1..];
    assert |TableNames(r)| == |expected|;
    forall k | 0 <= k < |r| ensures TableNames(r)[k] == expected[k] {
      if k < i {
        assert r[k] == tables[k] && expected[k] == names[k];
      } else {
        assert r[k] == tables[k + 1] && expected[k] == names[k + 1];
      }
    }
  }

  /** Removing the rule found for `name` removes that one entry of the name
      list too. */
  lemma RemovalNames(tables: seq<EncryptTableRule>, name: string)
    requires name in TableNames(tables)
    ensures var i := FirstNamed(tables, name);
            TableNames(RemoveFirstNamed(tables, name)) == TableNames(tables)[..i] + TableNames(tables)[i + 1..]
  {
    TableNamesWithout(tables, FirstNamed(tables, name));
  }

  lemma RemovalKeepsOtherNames(tables: seq<EncryptTableRule>, name: string, other: string)
    requires name in TableNames(tables)
    ensures other != name ==> (other in TableNames(RemoveFirstNamed(tables, name)) <==> other in TableNames(tables))
    ensures other in TableNames(RemoveFirstNamed(tables, name)) ==> other in TableNames(tables)
  {
    var i := FirstNamed(tables, name);
    RemovalNames(tables, name);
    RemovalMembers(TableNames(tables), i, other);
  }

  /** Each successful lookup removes exactly one rule. */
  lemma {:induction false} RemoveEachLength(tables: seq<EncryptTableRule>, names: seq<string>)
    requires LookupsSucceed(tables, names)
    ensures |RemoveEach(tables, names)| == |tables| - |names|
    decreases |names|
  {
    if names != [] {
      RemoveEachLength(RemoveFirstNamed(tables, names[0]), names[1..]);
    }
  }

  /** The removed rules and the remaining ones together are exactly the
      original list. */
  lemma {:induction false} RemoveEachConserves(tables: seq<EncryptTableRule>, names: seq<string>)
    requires LookupsSucceed(tables, names)
    ensures multiset(RemoveEach(tables, names)) + multiset(FoundTables(tables, names)) == multiset(tables)
    decreases |names|
  {
    if names != [] {
      var i := FirstNamed(tables, names[0]);
      var rest := RemoveFirstNamed(tables, names[0]);
      var kept, taken := RemoveEach(rest, names[1..]), FoundTables(rest, names[1..]);
      assert RemoveEach(tables, names) == kept;
      assert FoundTables(tables, names) == [tables[i]] + taken;
      RemoveEachConserves(rest, names[1..]);
      RemovalMultiset(tables, i);
      MultisetStep(kept, taken, rest, tables[i], tables);
    }
  }

  /** The removed rules carry the requested names, in request order. */
  lemma {:induction false} FoundTablesNames(tables: seq<EncryptTableRule>, names: seq<string>)
    requires LookupsSucceed(tables, names)
    ensures TableNames(FoundTables(tables, names)) == names
    decreases |names|
  {
    if names != [] {
      var next := RemoveFirstNamed(tables, names[0]);
      var first := tables[FirstNamed(tables, names[0])];
      var rest := FoundTables(next, names[1..]);
      FoundTablesNames(next, names[1..]);
      assert FoundTables(tables, names) == [first] + rest;
      assert ([first] + rest)[1..] == rest;
      assert TableNames([first] + rest) == [first.name] + TableNames(rest);
      assert names == [names[0]] + names[1..];
    }
  }

  /** The rules that stay keep their relative order. */
  lemma {:induction false} RemoveEachKeepsOrder(tables: seq<EncryptTableRule>, names: seq<string>)
    requires LookupsSucceed(tables, names)
    ensures IsSubsequence(RemoveEach(tables, names), tables)
    decreases |names|
  {
    if names == [] {
      SubsequenceReflexive(tables);
    } else {
      var rest := RemoveFirstNamed(tables, names[0]);
      RemoveEachKeepsOrder(rest, names[1..]);
      RemovalIsSubsequence(tables, FirstNamed(tables, names[0]));
      SubsequenceTransitive(RemoveEach(tables, names), rest, tables);
    }
  }

  /** Distinct names that all exist can all be looked up. */
  lemma {:induction false} DistinctNamesLookupsSucceed(tables: seq<EncryptTableRule>, names: seq<string>)
    requires Distinct(names)
    requires forall n :: n in names ==> n in TableNames(tables)
    ensures LookupsSucceed(tables, names)
    decreases |names|
  {
    if names != [] {
      var rest := RemoveFirstNamed(tables, names[0]);
      forall n | n in names[1..] ensures n in TableNames(rest) {
        var k :| 0 < k < |names| && names[k] == n;
        assert names[0] != names[k];
        RemovalKeepsOtherNames(tables, names[0], n);
      }
      DistinctNamesLookupsSucceed(rest, names[1..]);
    }
  }

  /** A name that can be looked up names a rule of the original list. */
  lemma {:induction false} LookupsSucceedNamesExist(tables: seq<EncryptTableRule>, names: seq<string>)
    requires LookupsSucceed(tables, names)
    ensures forall n :: n in names ==> n in TableNames(tables)
    decreases |names|
  {
    if names != [] {
      var rest := RemoveFirstNamed(tables, names[0]);
      LookupsSucceedNamesExist(rest, names[1..]);
      forall n | n in names ensures n in TableNames(tables) {
        if n != names[0] {
          assert n in names[1..];
          RemovalKeepsOtherNames(tables, names[0], n);
        }
      }
    }
  }

  /** With unique names, the removal leaves unique names and no rule called
      `name`. */
  lemma RemovalKeepsUnique(tables: seq<EncryptTableRule>, name: string)
    requires Distinct(TableNames(tables)) && name in TableNames(tables)
    ensures Distinct(TableNames(RemoveFirstNamed(tables, name)))
    ensures name !in TableNames(RemoveFirstNamed(tables, name))
  {
    var i := FirstNamed(tables, name);
    RemovalNames(tables, name);
    RemovalKeepsDistinct(TableNames(tables), i);
  }

  /** With unique table names, lookups that all succeed were made with
      distinct names. */
  lemma {:induction false} UniqueNamesLookupsDistinct(tables: seq<EncryptTableRule>, names: seq<string>)
    requires Distinct(TableNames(tables))
    requires LookupsSucceed(tables, names)
    ensures Distinct(names)
    decreases |names|
  {
    if names != [] {
      var rest := RemoveFirstNamed(tables, names[0]);
      RemovalKeepsUnique(tables, names[0]);
      UniqueNamesLookupsDistinct(rest, names[1..]);
      LookupsSucceedNamesExist(rest, names[1..]);
      DistinctCons(names[0], names[1..]);
      assert names == [names[0]] + names[1..];
    }
  }

  /** With unique table names, every lookup succeeds exactly when the
      requested names are distinct and all exist. */
  lemma UniqueNamesLookupsSucceedIff(tables: seq<EncryptTableRule>, names: seq<string>)
    requires Distinct(TableNames(tables))
    ensures LookupsSucceed(tables, names) <==> Distinct(names) && forall n :: n in names ==> n in TableNames(tables)
  {
    if Distinct(names) && forall n :: n in names ==> n in TableNames(tables) {
      DistinctNamesLookupsSucceed(tables, names);
    }
    if LookupsSucceed(tables, names) {
      LookupsSucceedNamesExist(tables, names);
      UniqueNamesLookupsDistinct(tables, names);
    }
  }

  /** `Unnamed` keeps exactly the rules whose names were not requested. */
  lemma {:induction false} UnnamedMembers(tables: seq<EncryptTableRule>, names: seq<string>)
    ensures forall t :: t in Unnamed(tables, names) <==> t in tables && t.name !in names
    decreases |tables|
  {
    if tables != [] {
      UnnamedMembers(tables[1..], names);
      var r := Unnamed(tables, names);
      assert r == (if tables[0].name in names then [] else [tables[0]]) + Unnamed(tables[1..], names);
      forall t ensures t in tables <==> t == tables[0] || t in tables[1..] {
        assert tables == [tables[0]] + tables[1..];
      }
    }
  }

  lemma MemberNames(tables: seq<EncryptTableRule>)
    ensures forall t :: t in tables ==> t.name in TableNames(tables)
  {
    forall t | t in tables ensures t.name in TableNames(tables) {
      var k :| 0 <= k < |tables| && tables[k] == t;
      assert TableNames(tables)[k] == t.name;
    }
  }

  lemma {:induction false} UnnamedConcat(a: seq<EncryptTableRule>, b: seq<EncryptTableRule>, names: seq<string>)
    ensures Unnamed(a + b, names) == Unnamed(a, names) + Unnamed(b, names)
    decreases |a|
  {
    if a == [] {
      assert a + b == b;
    } else {
      assert (a + b)[0] == a[0];
      assert (a + b)[1..] == a[1..] + b;
      UnnamedConcat(a[1..], b, names);
    }
  }

  lemma {:induction false} UnnamedSameVerdict(tables: seq<EncryptTableRule>, names: seq<string>, names': seq<string>)
    requires forall t :: t in tables ==> (t.name in names <==> t.name in names')
    ensures Unnamed(tables, names) == Unnamed(tables, names')
    decreases |tables|
  {
    if tables != [] {
      UnnamedSameVerdict(tables[1..], names, names');
    }
  }

  /** With unique table names, removing the looked-up rules is the same as
      keeping the rules whose names were not requested. */
  lemma {:induction false} RemoveEachIsUnnamed(tables: seq<EncryptTableRule>, names: seq<string>)
    requires Distinct(TableNames(tables))
    requires LookupsSucceed(tables, names)
    ensures RemoveEach(tables, names) == Unnamed(tables, names)
    decreases |names|
  {
    if names == [] {
      UnnamedIdentity(tables);
    } else {
      var n := names[0];
      var i := FirstNamed(tables, n);
      var rest := RemoveFirstNamed(tables, n);
      RemovalKeepsUnique(tables, n);
      RemoveEachIsUnnamed(rest, names[1..]);
      HeadNameAbsent(rest, names);
      UnnamedSameVerdict(rest, names, names[1..]);
      UnnamedRemoval(tables, i, names);
    }
  }

  /** When no rule carries the first requested name, dropping that name
      changes no rule's verdict. */
  lemma HeadNameAbsent(tables: seq<EncryptTableRule>, names: seq<string>)
    requires names != [] && names[0] !in TableNames(tables)
    ensures forall t :: t in tables ==> (t.name in names <==> t.name in names[1..])
  {
    MemberNames(tables);
    assert names == [names[0]] + names[1..];
  }

  /** Leaving out a rule whose name is requested does not change `Unnamed`. */
  lemma UnnamedRemoval(tables: seq<EncryptTableRule>, i: nat, names: seq<string>)
    requires i < |tables| && tables[i].name in names
    ensures Unnamed(tables[..i] + tables[i + 1..], names) == Unnamed(tables, names)
  {
    var pre, t, post := tables[..i], tables[i], tables[i + 1..];
    assert tables == pre + ([t] + post);
    UnnamedConcat(pre, [t] + post, names);
    UnnamedConcat([t], post, names);
    UnnamedConcat(pre, post, names);
    assert Unnamed([t], names) == [] + Unnamed([t][1..], names);
    assert [t][1..] == [];
  }

  lemma {:induction false} UnnamedIdentity(tables: seq<EncryptTableRule>)
    ensures Unnamed(tables, []) == tables
    decreases |tables|
  {
    if tables != [] {
      UnnamedIdentity(tables[1..]);
    }
  }

  /** With unique table names, the rules found are exactly the rules of the
      list that carry a requested name. */
  lemma FoundTablesAreNamed(tables: seq<EncryptTableRule>, names: seq<string>)
    requires Distinct(TableNames(tables))
    requires LookupsSucceed(tables, names)
    ensures forall t :: t in FoundTables(tables, names) <==> t in tables && t.name in names
  {
    FoundTablesFromList(tables, names);
    NamedTablesAreFound(tables, names);
  }

  lemma FoundTablesFromList(tables: seq<EncryptTableRule>, names: seq<string>)
    requires LookupsSucceed(tables, names)
    ensures forall t :: t in FoundTables(tables, names) ==> t in tables && t.name in names
  {
    var found := FoundTables(tables, names);
    RemoveEachConserves(tables, names);
    FoundTablesNames(tables, names);
    forall t | t in found ensures t in tables && t.name in names {
      assert multiset(found)[t] > 0;
      assert multiset(tables)[t] > 0;
      var k :| 0 <= k < |found| && found[k] == t;
      assert TableNames(found)[k] == t.name;
    }
  }

  lemma NamedTablesAreFound(tables: seq<EncryptTableRule>, names: seq<string>)
    requires Distinct(TableNames(tables))
    requires LookupsSucceed(tables, names)
    ensures forall t :: t in tables && t.name in names ==> t in FoundTables(tables, names)
  {
    var found := FoundTables(tables, names);
    var kept := RemoveEach(tables, names);
    RemoveEachConserves(tables, names);
    RemoveEachIsUnnamed(tables, names);
    UnnamedMembers(tables, names);
    forall t | t in tables && t.name in names ensures t in found {
      SplitMember(kept, found, tables, t);
    }
  }

  lemma SplitMember(kept: seq<EncryptTableRule>, found: seq<EncryptTableRule>, all: seq<EncryptTableRule>, t: EncryptTableRule)
    requires multiset(kept) + multiset(found) == multiset(all)
    requires t in all && t !in kept
    ensures t in found
  {
    assert multiset(all)[t] > 0 && multiset(kept)[t] == 0;
  }

  /** The encryptor names used by the columns of the rules called by one of
      `names`. */
  function NamedTablesEncryptors(tables: seq<EncryptTableRule>, names: seq<string>): set<string>
  {
    set t, c | t in tables && t.name in names && c in t.columns :: c.encryptorName
  }

  /** With unique table names, the encryptors removed are exactly those
      named by a column of a removed rule. */
  lemma RemovedEncryptorsOfNamedTables(tables: seq<EncryptTableRule>, names: seq<string>)
    requires Distinct(TableNames(tables))
    requires LookupsSucceed(tables, names)
    ensures UsedEncryptors(FoundTables(tables, names)) == NamedTablesEncryptors(tables, names)
  {
    FoundTablesAreNamed(tables, names);
    var found := FoundTables(tables, names);
    forall x | x in NamedTablesEncryptors(tables, names) ensures x in UsedEncryptors(found) {
      var t, c :| t in tables && t.name in names && c in t.columns && c.encryptorName == x;
      assert t in found;
    }
  }
}
