/** DROP ENCRYPT RULE: the check that every named table has an encrypt rule,
    and the removal of those rules, their encryptors and, once no rule is
    left, of the whole encrypt configuration from the schema. */
module DropEncryptRule {
  import opened NameLists
  import opened EncryptRuleConfig
  import opened RuleMetaData

  /** The parsed statement: the table names whose encrypt rules are dropped. */
  datatype DropEncryptRuleStatement = DropEncryptRuleStatement(tables: seq<string>)

  /** The check against an existing configuration: it fails naming every
      requested table that has no rule, in request order. */
  function CheckDroppedTables(schemaName: string, tables: seq<EncryptTableRule>, droppedTables: seq<string>): (r: CheckResult)
    ensures r.Passed? <==> forall n :: n in droppedTables ==> n in TableNames(tables)
    ensures r.Failed? ==> r.error.EncryptRuleNotExisted? && r.error.schemaName == schemaName
    ensures r.Failed? ==> forall n :: n in r.error.tables <==> n in droppedTables && n !in TableNames(tables)
    ensures r.Failed? ==> forall n :: multiset(r.error.tables)[n] == if n in TableNames(tables) then 0 else multiset(droppedTables)[n]
    ensures r.Failed? ==> IsSubsequence(r.error.tables, droppedTables)
  {
    var notExisted := Missing(droppedTables, TableNames(tables));
    MissingSpec(droppedTables, TableNames(tables));
    if notExisted != [] then Failed(EncryptRuleNotExisted(schemaName, notExisted)) else Passed
  }

  /** The read-only check phase. `current` is the table list of the
      schema's encrypt configuration, `None` when the schema has none. */
  function Check(schemaName: string, current: Option<seq<EncryptTableRule>>, stmt: DropEncryptRuleStatement): (r: CheckResult)
    ensures current.None? ==> r == Failed(EncryptRuleNotExisted(schemaName, stmt.tables))
    ensures current.Some? ==> (r.Passed? <==> forall n :: n in stmt.tables ==> n in TableNames(current.value))
    ensures current.Some? && r.Failed? ==>
              && r.error.EncryptRuleNotExisted? && r.error.schemaName == schemaName
              && (forall n :: n in r.error.tables <==> n in stmt.tables && n !in TableNames(current.value))
              && (forall n :: multiset(r.error.tables)[n] ==
                             if n in TableNames(current.value) then 0 else multiset(stmt.tables)[n])
              && IsSubsequence(r.error.tables, stmt.tables)
  {
    match current
    case None => Failed(EncryptRuleNotExisted(schemaName, stmt.tables))
    case Some(tables) => CheckDroppedTables(schemaName, tables, stmt.tables)
  }

  /** The execute phase on the schema's encrypt configuration `ruleConfig`:
      the removal loop, then, when no table rule is left, the removal of
      the configuration from the schema's rule configurations. */
  method DoExecute(metaData: ShardingSphereRuleMetaData, ruleConfig: EncryptRuleConfiguration, stmt: DropEncryptRuleStatement)
    requires FindEncryptRule(metaData.configurations) == Some(ruleConfig)
    requires LookupsSucceed(ruleConfig.tables, stmt.tables)
    modifies metaData, ruleConfig
    ensures ruleConfig.tables == RemoveEach(old(ruleConfig.tables), stmt.tables)
    ensures ruleConfig.encryptors == old(ruleConfig.encryptors) - UsedEncryptors(FoundTables(old(ruleConfig.tables), stmt.tables))
    ensures metaData.configurations == if ruleConfig.tables == [] then RemoveFirst(old(metaData.configurations), EncryptRule(ruleConfig))
                                       else old(metaData.configurations)
  {
    ruleConfig.RemoveTableRules(stmt.tables);
    if ruleConfig.tables == [] {
      metaData.configurations := RemoveFirst(metaData.configurations, EncryptRule(ruleConfig));
    }
  }

  /** Both phases in order, on the schema's current configuration: a failed
      check changes nothing; a passed one leaves the state of `DoExecute`.
      When the check passes, every lookup must succeed: a name repeated in
      the statement that only one rule carries passes the check and then
      fails its second lookup (see `RepeatedNamePassesCheck`). Only the
      schema's current encrypt configuration may change. */
  method Execute(metaData: ShardingSphereRuleMetaData, schemaName: string, stmt: DropEncryptRuleStatement) returns (r: CheckResult)
    requires Check(schemaName, CurrentTables(metaData.configurations), stmt).Passed? ==>
               LookupsSucceed(FindEncryptRule(metaData.configurations).value.tables, stmt.tables)
    modifies metaData, CurrentConfig(metaData.configurations)
    ensures r == Check(schemaName, old(CurrentTables(metaData.configurations)), stmt)
    ensures r.Failed? ==> metaData.configurations == old(metaData.configurations)
                          && unchanged(CurrentConfig(old(metaData.configurations)))
    ensures r.Passed? ==>
              var c := old(FindEncryptRule(metaData.configurations)).value;
              && LookupsSucceed(old(c.tables), stmt.tables)
              && c.tables == RemoveEach(old(c.tables), stmt.tables)
              && c.encryptors == old(c.encryptors) - UsedEncryptors(FoundTables(old(c.tables), stmt.tables))
              && metaData.configurations == if c.tables == [] then RemoveFirst(old(metaData.configurations), EncryptRule(c))
                                            else old(metaData.configurations)
  {
    var current := FindEncryptRule(metaData.configurations);
    r := Check(schemaName, CurrentTables(metaData.configurations), stmt);
    if r.Passed? {
      var c := current.value;
      DoExecute(metaData, c, stmt);
    }
  }

  /** A check that passes, on distinct names, guarantees that every lookup
      of `doExecute` finds its rule. */
  lemma CheckEnablesExecute(schemaName: string, tables: seq<EncryptTableRule>, stmt: DropEncryptRuleStatement)
    requires Distinct(stmt.tables)
    requires Check(schemaName, Some(tables), stmt) == Passed
    ensures LookupsSucceed(tables, stmt.tables)
  {
    DistinctNamesLookupsSucceed(tables, stmt.tables);
  }

  /** A repeated name passes the check, yet the second lookup of
      `doExecute` finds nothing. */
  lemma RepeatedNamePassesCheck()
    ensures var tables := [EncryptTableRule("t_user", [])];
            var stmt := DropEncryptRuleStatement(["t_user", "t_user"]);
            Check("s1", Some(tables), stmt) == Passed && !LookupsSucceed(tables, stmt.tables)
  {
    var tables := [EncryptTableRule("t_user", [])];
    assert TableNames(tables) == ["t_user"];
    assert RemoveFirstNamed(tables, "t_user") == [];
  }

  /** With unique table names and distinct, existing requested names: the
      remaining rules are exactly those not requested, in their old order,
      one fewer per requested name. */
  lemma DropLeavesUnrequestedTables(tables: seq<EncryptTableRule>, names: seq<string>)
    requires Distinct(TableNames(tables))
    requires Distinct(names) && forall n :: n in names ==> n in TableNames(tables)
    ensures LookupsSucceed(tables, names)
    ensures |RemoveEach(tables, names)| == |tables| - |names|
    ensures IsSubsequence(RemoveEach(tables, names), tables)
    ensures forall t :: t in RemoveEach(tables, names) <==> t in tables && t.name !in names
  {
    DistinctNamesLookupsSucceed(tables, names);
    RemoveEachLength(tables, names);
    RemoveEachKeepsOrder(tables, names);
    RemoveEachIsUnnamed(tables, names);
    UnnamedMembers(tables, names);
  }

  /** With unique table names and distinct, existing requested names: an
      encryptor entry disappears exactly when a column of a dropped rule
      names it, and every other entry keeps its value. */
  lemma DropEncryptorEntries(tables: seq<EncryptTableRule>, names: seq<string>, encryptors: map<string, AlgorithmConfiguration>)
    requires Distinct(TableNames(tables))
    requires Distinct(names) && forall n :: n in names ==> n in TableNames(tables)
    ensures LookupsSucceed(tables, names)
    ensures var after := encryptors - UsedEncryptors(FoundTables(tables, names));
            && (forall k :: k in after <==> k in encryptors && k !in NamedTablesEncryptors(tables, names))
            && (forall k :: k in after ==> after[k] == encryptors[k])
  {
    DistinctNamesLookupsSucceed(tables, names);
    RemovedEncryptorsOfNamedTables(tables, names);
  }

  /** When the schema holds the encrypt configuration once, removing it
      leaves no entry for it and the other entries in their order. */
  lemma ConfigurationRemoval(configs: seq<RuleConfiguration>, c: EncryptRuleConfiguration)
    requires multiset(configs)[EncryptRule(c)] == 1
    ensures EncryptRule(c) !in RemoveFirst(configs, EncryptRule(c))
    ensures |RemoveFirst(configs, EncryptRule(c))| == |configs| - 1
    ensures IsSubsequence(RemoveFirst(configs, EncryptRule(c)), configs)
  {
    var r := RemoveFirst(configs, EncryptRule(c));
    assert multiset(r)[EncryptRule(c)] == 0;
    assert EncryptRule(c) in configs;
    RemovalIsSubsequence(configs, IndexOf(configs, EncryptRule(c)));
  }
}
