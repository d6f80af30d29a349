/** ALTER ENCRYPT RULE: the check that every altered table has an encrypt
    rule and that every encryptor type resolves, then the replacement of
    the altered rules by the converted ones. */
module AlterEncryptRule {
  import opened NameLists
  import opened EncryptRuleConfig

  /** An algorithm named in the statement: its type name and properties. */
  datatype AlgorithmSegment = AlgorithmSegment(name: string, props: map<string, string>)

  datatype EncryptColumnSegment = EncryptColumnSegment(
    name: string,
    plainColumn: string,
    cipherColumn: string,
    encryptor: AlgorithmSegment)

  /** The new definition of one table's encrypt rule. */
  datatype EncryptRuleSegment = EncryptRuleSegment(tableName: string, columns: seq<EncryptColumnSegment>)

  /** The parsed statement: the replacement rules. */
  datatype AlterEncryptRuleStatement = AlterEncryptRuleStatement(rules: seq<EncryptRuleSegment>)

  /** The table names of the statement's rules, in statement order. */
  function AlteredRuleNames(stmt: AlterEncryptRuleStatement): (names: seq<string>)
    ensures |names| == |stmt.rules|
    ensures forall i :: 0 <= i < |stmt.rules| ==> names[i] == stmt.rules[i].tableName
  {
    seq(|stmt.rules|, i requires 0 <= i < |stmt.rules| => stmt.rules[i].tableName)
  }

  /** The encryptor type names of every column of every rule, rule by rule
      and column by column, repetitions kept. */
  function EncryptorTypeNames(rules: seq<EncryptRuleSegment>): (types: seq<string>)
    ensures forall x :: x in types <==> exists i, j :: 0 <= i < |rules| && 0 <= j < |rules[i].columns|
                                                       && rules[i].columns[j].encryptor.name == x
    decreases |rules|
  {
    if rules == [] then []
    else
      var head := seq(|rules[0].columns|, j requires 0 <= j < |rules[0].columns| => rules[0].columns[j].encryptor.name);
      var rest := EncryptorTypeNames(rules[1..]);
      assert forall x :: x in rest <==> exists i, j :: 1 <= i < |rules| && 0 <= j < |rules[i].columns|
                                                      && rules[i].columns[j].encryptor.name == x by {
        forall x | x in rest ensures exists i, j :: 1 <= i < |rules| && 0 <= j < |rules[i].columns|
                                                   && rules[i].columns[j].encryptor.name == x {
          var i, j :| 0 <= i < |rules[1..]| && 0 <= j < |rules[1..][i].columns| && rules[1..][i].columns[j].encryptor.name == x;
          assert rules[i + 1] == rules[1..][i];
        }
        forall x, i, j | 1 <= i < |rules| && 0 <= j < |rules[i].columns| && rules[i].columns[j].encryptor.name == x
          ensures x in rest {
          assert rules[1..][i - 1] == rules[i];
        }
      }
      forall x, j | 0 <= j < |rules[0].columns| && rules[0].columns[j].encryptor.name == x ensures x in head {
        assert head[j] == x;
      }
      head + rest
  }

  /** `checkAlteredTables`: fails naming every altered table that has no
      rule, in statement order. */
  function CheckAlteredTables(schemaName: string, tables: seq<EncryptTableRule>, stmt: AlterEncryptRuleStatement): (r: CheckResult)
    ensures r.Passed? <==> forall n :: n in AlteredRuleNames(stmt) ==> n in TableNames(tables)
    ensures r.Failed? ==> r.error.EncryptRuleNotExisted? && r.error.schemaName == schemaName
    ensures r.Failed? ==> forall n :: n in r.error.tables <==> n in AlteredRuleNames(stmt) && n !in TableNames(tables)
    ensures r.Failed? ==> forall n :: multiset(r.error.tables)[n] == if n in TableNames(tables) then 0 else multiset(AlteredRuleNames(stmt))[n]
    ensures r.Failed? ==> IsSubsequence(r.error.tables, AlteredRuleNames(stmt))
  {
    var existTables := TableNames(tables);
    var notExistTables := Missing(AlteredRuleNames(stmt), existTables);
    MissingSpec(AlteredRuleNames(stmt), existTables);
    if notExistTables != [] then Failed(EncryptRuleNotExisted(schemaName, notExistTables)) else Passed
  }

  /** `checkEncryptors`: fails naming, once each and in first-seen order,
      every encryptor type name that `resolvable` (the algorithm registry)
      rejects. */
  function CheckEncryptors(stmt: AlterEncryptRuleStatement, resolvable: string -> bool): (r: CheckResult)
    ensures r.Passed? <==> forall x :: x in EncryptorTypeNames(stmt.rules) ==> resolvable(x)
    ensures r.Failed? ==> r.error.InvalidEncryptors?
    ensures r.Failed? ==> forall x :: x in r.error.encryptors <==> x in EncryptorTypeNames(stmt.rules) && !resolvable(x)
    ensures r.Failed? ==> InFirstSeenOrder(r.error.encryptors, EncryptorTypeNames(stmt.rules))
    ensures r.Failed? ==> Distinct(r.error.encryptors)
  {
    var encryptors := InsertionOrdered(EncryptorTypeNames(stmt.rules));
    var invalidEncryptors := Unresolved(encryptors, resolvable);
    InsertionOrderedSpec(EncryptorTypeNames(stmt.rules));
    UnresolvedSpec(encryptors, resolvable);
    SubsequenceKeepsFirstSeenOrder(invalidEncryptors, encryptors, EncryptorTypeNames(stmt.rules));
    FirstSeenOrderIsDistinct(invalidEncryptors, EncryptorTypeNames(stmt.rules));
    assert invalidEncryptors == [] ==> forall x :: x in EncryptorTypeNames(stmt.rules) ==> resolvable(x) by {
      forall x | x in EncryptorTypeNames(stmt.rules) && !resolvable(x) ensures x in invalidEncryptors {
        assert x in encryptors;
      }
    }
    assert invalidEncryptors != [] ==> invalidEncryptors[0] in invalidEncryptors;
    if invalidEncryptors != [] then Failed(InvalidEncryptors(invalidEncryptors)) else Passed
  }

  /** The read-only check phase. `current` is the table list of the
      schema's encrypt configuration, `None` when the schema has none. */
  function Check(schemaName: string, current: Option<seq<EncryptTableRule>>, stmt: AlterEncryptRuleStatement,
                 resolvable: string -> bool): (r: CheckResult)
    ensures current.None? ==> r == Failed(EncryptRuleNotExisted(schemaName, AlteredRuleNames(stmt)))
    ensures current.Some? ==> (r.Passed? <==> && (forall n :: n in AlteredRuleNames(stmt) ==> n in TableNames(current.value))
                                              && (forall x :: x in EncryptorTypeNames(stmt.rules) ==> resolvable(x)))
    ensures current.Some? && r.Failed? && (forall n :: n in AlteredRuleNames(stmt) ==> n in TableNames(current.value)) ==>
              r.error.InvalidEncryptors?
    ensures current.Some? && r.Failed? && r.error.EncryptRuleNotExisted? ==>
              && r.error.schemaName == schemaName
              && r.error.tables != []
              && (forall n :: n in r.error.tables <==> n in AlteredRuleNames(stmt) && n !in TableNames(current.value))
              && (forall n :: multiset(r.error.tables)[n] ==
                             if n in TableNames(current.value) then 0 else multiset(AlteredRuleNames(stmt))[n])
              && IsSubsequence(r.error.tables, AlteredRuleNames(stmt))
    ensures current.Some? && r.Failed? && r.error.InvalidEncryptors? ==>
              && (forall n :: n in AlteredRuleNames(stmt) ==> n in TableNames(current.value))
              && (forall x :: x in r.error.encryptors <==> x in EncryptorTypeNames(stmt.rules) && !resolvable(x))
              && InFirstSeenOrder(r.error.encryptors, EncryptorTypeNames(stmt.rules))
              && Distinct(r.error.encryptors)
  {
    match current
    case None => Failed(EncryptRuleNotExisted(schemaName, AlteredRuleNames(stmt)))
    case Some(tables) =>
      var altered := CheckAlteredTables(schemaName, tables, stmt);
      if altered.Failed? then altered else CheckEncryptors(stmt, resolvable)
  }

  /** The execute phase on the schema's encrypt configuration `ruleConfig`.
      `altered` is the configuration that the statement converter builds
      from the statement's rules (a new object). The altered rules are
      removed as by DROP, then the converted rules are appended and the
      converted encryptors put into the map, overriding existing keys. */
  method DoExecute(ruleConfig: EncryptRuleConfiguration, stmt: AlterEncryptRuleStatement, altered: EncryptRuleConfiguration)
    requires ruleConfig != altered
    requires LookupsSucceed(ruleConfig.tables, AlteredRuleNames(stmt))
    modifies ruleConfig
    ensures ruleConfig.tables == RemoveEach(old(ruleConfig.tables), AlteredRuleNames(stmt)) + altered.tables
    ensures ruleConfig.encryptors == (old(ruleConfig.encryptors) - UsedEncryptors(FoundTables(old(ruleConfig.tables), AlteredRuleNames(stmt))))
                                     + altered.encryptors
  {
    ruleConfig.RemoveTableRules(AlteredRuleNames(stmt));
    ruleConfig.tables := ruleConfig.tables + altered.tables;
    ruleConfig.encryptors := ruleConfig.encryptors + altered.encryptors;
  }

  /** Both phases in order on the schema's encrypt configuration, `None`
      when the schema has none: a failed check changes nothing; a passed
      one leaves the state of `DoExecute`. When the check passes, every
      lookup of the drop step must succeed, for the same reason as in DROP. */
  method Execute(ruleConfig: EncryptRuleConfiguration?, schemaName: string, stmt: AlterEncryptRuleStatement,
                 resolvable: string -> bool, altered: EncryptRuleConfiguration) returns (r: CheckResult)
    requires ruleConfig != altered
    requires Check(schemaName, if ruleConfig == null then None else Some(ruleConfig.tables), stmt, resolvable).Passed?
             ==> ruleConfig != null && LookupsSucceed(ruleConfig.tables, AlteredRuleNames(stmt))
    modifies ruleConfig
    ensures r == Check(schemaName, if ruleConfig == null then None else Some(old(ruleConfig.tables)), stmt, resolvable)
    ensures r.Failed? && ruleConfig != null ==> unchanged(ruleConfig)
    ensures r.Passed? ==>
              && ruleConfig != null
              && LookupsSucceed(old(ruleConfig.tables), AlteredRuleNames(stmt))
              && ruleConfig.tables == RemoveEach(old(ruleConfig.tables), AlteredRuleNames(stmt)) + altered.tables
              && ruleConfig.encryptors == (old(ruleConfig.encryptors) - UsedEncryptors(FoundTables(old(ruleConfig.tables), AlteredRuleNames(stmt))))
                                          + altered.encryptors
  {
    r := Check(schemaName, if ruleConfig == null then None else Some(ruleConfig.tables), stmt, resolvable);
    if r.Passed? {
      DoExecute(ruleConfig, stmt, altered);
    }
  }

  /** A check that passes, on distinct altered names, guarantees that every
      lookup of `drop` finds its rule. */
  lemma CheckEnablesExecute(schemaName: string, tables: seq<EncryptTableRule>, stmt: AlterEncryptRuleStatement,
                            resolvable: string -> bool)
    requires Distinct(AlteredRuleNames(stmt))
    requires Check(schemaName, Some(tables), stmt, resolvable) == Passed
    ensures LookupsSucceed(tables, AlteredRuleNames(stmt))
  {
    DistinctNamesLookupsSucceed(tables, AlteredRuleNames(stmt));
  }

  /** The table list after ALTER: the unaltered rules in their old order,
      then exactly the converted rules; one old rule goes per altered name. */
  lemma AlteredTablesLayout(tables: seq<EncryptTableRule>, names: seq<string>, converted: seq<EncryptTableRule>)
    requires LookupsSucceed(tables, names)
    ensures var after := RemoveEach(tables, names) + converted;
            && |after| == |tables| - |names| + |converted|
            && after[|after| - |converted|..] == converted
            && IsSubsequence(after[..|after| - |converted|], tables)
            && multiset(after[..|after| - |converted|]) + multiset(FoundTables(tables, names)) == multiset(tables)
            && TableNames(FoundTables(tables, names)) == names
  {
    var kept := RemoveEach(tables, names);
    RemoveEachLength(tables, names);
    RemoveEachKeepsOrder(tables, names);
    RemoveEachConserves(tables, names);
    FoundTablesNames(tables, names);
    assert (kept + converted)[..|kept|] == kept;
  }

  /** With unique table names and distinct, existing altered names, the
      rules kept ahead of the converted ones are exactly the rules whose
      names were not altered, in their old order. A corollary of
      `RemoveEachIsUnnamed` and `UnnamedMembers`. */
  lemma AlterKeepsUnalteredTables(tables: seq<EncryptTableRule>, names: seq<string>)
    requires Distinct(TableNames(tables))
    requires Distinct(names) && forall n :: n in names ==> n in TableNames(tables)
    ensures LookupsSucceed(tables, names)
    ensures RemoveEach(tables, names) == Unnamed(tables, names)
    ensures forall t :: t in Unnamed(tables, names) <==> t in tables && t.name !in names
  {
    DistinctNamesLookupsSucceed(tables, names);
    RemoveEachIsUnnamed(tables, names);
    UnnamedMembers(tables, names);
  }

  /** The encryptor map after ALTER, with unique table names and distinct,
      existing altered names: every converted entry with its new value;
      every other entry kept with its value unless a column of a replaced
      rule names it, in which case it is gone. */
  lemma AlterEncryptorEntries(tables: seq<EncryptTableRule>, names: seq<string>,
                              encryptors: map<string, AlgorithmConfiguration>, converted: map<string, AlgorithmConfiguration>)
    requires Distinct(TableNames(tables))
    requires Distinct(names) && forall n :: n in names ==> n in TableNames(tables)
    ensures LookupsSucceed(tables, names)
    ensures var after := (encryptors - UsedEncryptors(FoundTables(tables, names))) + converted;
            && (forall k :: k in converted ==> k in after && after[k] == converted[k])
            && (forall k :: k !in converted ==> (k in after <==> k in encryptors && k !in NamedTablesEncryptors(tables, names)))
            && (forall k :: k in after && k !in converted ==> after[k] == encryptors[k])
  {
    DistinctNamesLookupsSucceed(tables, names);
    RemovedEncryptorsOfNamedTables(tables, names);
  }
}
