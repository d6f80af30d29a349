# Encrypt-rule ALTER and DROP handlers of the ShardingSphere proxy

This project models the two DistSQL back-end handlers that change the
encrypt-rule configuration of one schema: `AlterEncryptRuleBackendHandler` and
`DropEncryptRuleBackendHandler`. The state is
the schema's encrypt configuration (an ordered list of table rules, each a table name
and columns that each name an encryptor, plus a map from encryptor name to algorithm
configuration) and the schema's collection of rule configurations, of which the
encrypt configuration may or may not be a member.

Each handler has two phases:

- `check` reads the state and either passes or fails with an error that lists
  the offending names. It is modelled by pure functions (`Check`, `CheckDroppedTables`,
  `CheckAlteredTables`, `CheckEncryptors`), so it cannot change anything.
- `doExecute` changes the list and the map in place. It is modelled by methods on the
  class `EncryptRuleConfiguration`. DROP's removal of the configuration from the schema's
  rule configurations is an assignment to the `configurations` field of
  `ShardingSphereRuleMetaData` in `DropEncryptRule.DoExecute`. The
  shared loop (find a rule by name, remove it, then remove every encryptor its columns
  name) is `EncryptRuleConfiguration.RemoveTableRules`, proved against the specification
  functions `RemoveEach` and `FoundTables`.

Layout: `name_lists.dfy` (stream filters, the insertion-ordered set, `Collection.remove`),
`encrypt_rule_config.dfy` (the configuration, the removal loop and its lemmas),
`rule_metadata.dfy` (the schema's rule configurations), `drop_encrypt_rule.dfy`,
`alter_encrypt_rule.dfy`.

Two properties of the code shape the model:

- Neither handler checks whether a remaining rule still uses an encryptor before
  removing it. Every encryptor that a column of a removed rule names is removed, and
  no other encryptor is.
- Both handlers mutate the current configuration object in place.

`doExecute` looks each name up with `findAny().get()`, which throws when nothing is
found. `LookupsSucceed` is the exact condition under which every lookup finds a rule.
Both `DoExecute` methods require it. `DistinctNamesLookupsSucceed` shows that it holds
when the names are distinct and all exist. With unique table names it holds exactly then
(`UniqueNamesLookupsSucceedIff`). `check` does not reject a name repeated in the statement that only one rule carries
(`DropEncryptRule.RepeatedNamePassesCheck`).

## Model

| member | source | states |
|---|---|---|
| NameLists.MissingSpec | shardingsphere-proxy/shardingsphere-proxy-backend/src/main/java/org/apache/shardingsphere/proxy/backend/text/distsql/rdl/impl/DropEncryptRuleBackendHandler.java:50-51 | the names kept by the not-existing filter are exactly the requested names absent from the existing ones, each as often as requested, in request order; the filter is empty exactly when every requested name exists |
| NameLists.InsertionOrderedSpec | shardingsphere-proxy/shardingsphere-proxy-backend/src/main/java/org/apache/shardingsphere/proxy/backend/text/distsql/rdl/impl/AlterEncryptRuleBackendHandler.java:81-83 | collecting into a LinkedHashSet keeps every name once, in first-seen order, and loses none |
| NameLists.UnresolvedSpec | shardingsphere-proxy/shardingsphere-proxy-backend/src/main/java/org/apache/shardingsphere/proxy/backend/text/distsql/rdl/impl/AlterEncryptRuleBackendHandler.java:84-85 | the invalid-encryptor filter keeps exactly the names the registry cannot resolve, in their order |
| NameLists.SubsequenceKeepsFirstSeenOrder | shardingsphere-proxy/shardingsphere-proxy-backend/src/main/java/org/apache/shardingsphere/proxy/backend/text/distsql/rdl/impl/AlterEncryptRuleBackendHandler.java:84-85 | filtering a first-seen-ordered list keeps it first-seen ordered, hence duplicate-free |
| NameLists.RemoveFirst | shardingsphere-proxy/shardingsphere-proxy-backend/src/main/java/org/apache/shardingsphere/proxy/backend/text/distsql/rdl/impl/DropEncryptRuleBackendHandler.java:67 | Collection.remove drops only the first equal entry, keeps the rest in order, and changes nothing when the entry is absent |
| EncryptRuleConfig.TableNames | shardingsphere-proxy/shardingsphere-proxy-backend/src/main/java/org/apache/shardingsphere/proxy/backend/text/distsql/rdl/impl/AlterEncryptRuleBackendHandler.java:76-78 | the existing table names: one per rule, in list order |
| EncryptRuleConfig.FirstNamed | shardingsphere-proxy/shardingsphere-proxy-backend/src/main/java/org/apache/shardingsphere/proxy/backend/text/distsql/rdl/impl/AlterEncryptRuleBackendHandler.java:104 | the lookup finds a rule exactly when one has that name, and the rule it finds carries that name |
| EncryptRuleConfig.FirstNamedIsFirst | shardingsphere-proxy/shardingsphere-proxy-backend/src/main/java/org/apache/shardingsphere/proxy/backend/text/distsql/rdl/impl/AlterEncryptRuleBackendHandler.java:104 | no rule before the one the lookup finds carries the requested name, so the lookup takes the first match |
| EncryptRuleConfig.EncryptRuleConfiguration.RemoveTableRules | shardingsphere-proxy/shardingsphere-proxy-backend/src/main/java/org/apache/shardingsphere/proxy/backend/text/distsql/rdl/impl/AlterEncryptRuleBackendHandler.java:102-108 | after the loop the list is RemoveEach of the old list and the map is the old map minus every encryptor named by a column of a removed rule |
| EncryptRuleConfig.EncryptRuleConfiguration.RemoveColumnEncryptors | shardingsphere-proxy/shardingsphere-proxy-backend/src/main/java/org/apache/shardingsphere/proxy/backend/text/distsql/rdl/impl/AlterEncryptRuleBackendHandler.java:106 | the inner loop removes exactly the encryptor names of the given columns from the map |
| EncryptRuleConfig.RemoveEachLength | shardingsphere-proxy/shardingsphere-proxy-backend/src/main/java/org/apache/shardingsphere/proxy/backend/text/distsql/rdl/impl/DropEncryptRuleBackendHandler.java:60-63 | the table count falls by exactly the number of names looked up |
| EncryptRuleConfig.RemoveEachConserves | shardingsphere-proxy/shardingsphere-proxy-backend/src/main/java/org/apache/shardingsphere/proxy/backend/text/distsql/rdl/impl/DropEncryptRuleBackendHandler.java:60-63 | the removed rules and the remaining rules together are exactly the old list (as a multiset) |
| EncryptRuleConfig.FoundTablesNames | shardingsphere-proxy/shardingsphere-proxy-backend/src/main/java/org/apache/shardingsphere/proxy/backend/text/distsql/rdl/impl/AlterEncryptRuleBackendHandler.java:103-105 | for each name exactly one rule is removed, and it carries that name, in name order |
| EncryptRuleConfig.RemoveEachKeepsOrder | shardingsphere-proxy/shardingsphere-proxy-backend/src/main/java/org/apache/shardingsphere/proxy/backend/text/distsql/rdl/impl/DropEncryptRuleBackendHandler.java:60-63 | the remaining rules keep their relative order |
| EncryptRuleConfig.DistinctNamesLookupsSucceed | shardingsphere-proxy/shardingsphere-proxy-backend/src/main/java/org/apache/shardingsphere/proxy/backend/text/distsql/rdl/impl/DropEncryptRuleBackendHandler.java:60-62 | distinct names that all exist can all be looked up in turn |
| EncryptRuleConfig.LookupsSucceedNamesExist | shardingsphere-proxy/shardingsphere-proxy-backend/src/main/java/org/apache/shardingsphere/proxy/backend/text/distsql/rdl/impl/DropEncryptRuleBackendHandler.java:60-62 | names that can all be looked up all exist in the old list |
| EncryptRuleConfig.UniqueNamesLookupsSucceedIff | shardingsphere-proxy/shardingsphere-proxy-backend/src/main/java/org/apache/shardingsphere/proxy/backend/text/distsql/rdl/impl/AlterEncryptRuleBackendHandler.java:103-104 | with unique table names, every lookup succeeds if and only if the names are distinct and all exist |
| EncryptRuleConfig.RemoveEachIsUnnamed | shardingsphere-proxy/shardingsphere-proxy-backend/src/main/java/org/apache/shardingsphere/proxy/backend/text/distsql/rdl/impl/DropEncryptRuleBackendHandler.java:60-65 | with unique table names, the remaining list equals the old list filtered to the names not requested |
| EncryptRuleConfig.UnnamedMembers | shardingsphere-proxy/shardingsphere-proxy-backend/src/main/java/org/apache/shardingsphere/proxy/backend/text/distsql/rdl/impl/DropEncryptRuleBackendHandler.java:60-65 | the filtered list keeps exactly the rules whose names were not requested |
| EncryptRuleConfig.FoundTablesAreNamed | shardingsphere-proxy/shardingsphere-proxy-backend/src/main/java/org/apache/shardingsphere/proxy/backend/text/distsql/rdl/impl/DropEncryptRuleBackendHandler.java:61-63 | with unique table names, the removed rules are exactly the rules with a requested name |
| EncryptRuleConfig.RemovedEncryptorsOfNamedTables | shardingsphere-proxy/shardingsphere-proxy-backend/src/main/java/org/apache/shardingsphere/proxy/backend/text/distsql/rdl/impl/DropEncryptRuleBackendHandler.java:64 | with unique table names, the removed encryptor keys are exactly those named by a column of a requested rule |
| RuleMetaData.FindEncryptRule | shardingsphere-proxy/shardingsphere-proxy-backend/src/main/java/org/apache/shardingsphere/proxy/backend/text/distsql/rdl/impl/DropEncryptRuleBackendHandler.java:42 | the schema has an encrypt configuration exactly when some entry is one, and the first such entry is returned |
| DropEncryptRule.CheckDroppedTables | shardingsphere-proxy/shardingsphere-proxy-backend/src/main/java/org/apache/shardingsphere/proxy/backend/text/distsql/rdl/impl/DropEncryptRuleBackendHandler.java:49-55 | passes exactly when every requested name exists; otherwise fails with RuleNotExisted for the schema, listing exactly the missing names, with their multiplicity, in request order |
| DropEncryptRule.Check | shardingsphere-proxy/shardingsphere-proxy-backend/src/main/java/org/apache/shardingsphere/proxy/backend/text/distsql/rdl/impl/DropEncryptRuleBackendHandler.java:41-47 | with no encrypt configuration, fails with RuleNotExisted naming every requested table; otherwise as the table check |
| DropEncryptRule.DoExecute | shardingsphere-proxy/shardingsphere-proxy-backend/src/main/java/org/apache/shardingsphere/proxy/backend/text/distsql/rdl/impl/DropEncryptRuleBackendHandler.java:57-69 | the list becomes RemoveEach, the map loses the dropped rules' encryptors, and the configuration leaves the schema's collection exactly when no rule is left |
| DropEncryptRule.Execute | shardingsphere-proxy/shardingsphere-proxy-backend/src/main/java/org/apache/shardingsphere/proxy/backend/text/distsql/rdl/impl/DropEncryptRuleBackendHandler.java:41-69 | check then doExecute, for any statement whose check fails and, when it passes, for names whose lookups all succeed: the result is the check's verdict; on failure nothing changes; on success the state is that of DoExecute, and no configuration other than the current one changes |
| DropEncryptRule.CheckEnablesExecute | shardingsphere-proxy/shardingsphere-proxy-backend/src/main/java/org/apache/shardingsphere/proxy/backend/text/distsql/rdl/impl/DropEncryptRuleBackendHandler.java:49-62 | a passed check on distinct names lets every lookup of doExecute succeed |
| DropEncryptRule.RepeatedNamePassesCheck | shardingsphere-proxy/shardingsphere-proxy-backend/src/main/java/org/apache/shardingsphere/proxy/backend/text/distsql/rdl/impl/DropEncryptRuleBackendHandler.java:49-62 | dropping the same existing table twice passes the check, but the second lookup finds nothing |
| DropEncryptRule.DropLeavesUnrequestedTables | shardingsphere-proxy/shardingsphere-proxy-backend/src/main/java/org/apache/shardingsphere/proxy/backend/text/distsql/rdl/impl/DropEncryptRuleBackendHandler.java:60-65 | with unique table names and distinct existing requested names, no dropped rule remains, every other rule remains in its order, and the count falls by the number of names |
| DropEncryptRule.DropEncryptorEntries | shardingsphere-proxy/shardingsphere-proxy-backend/src/main/java/org/apache/shardingsphere/proxy/backend/text/distsql/rdl/impl/DropEncryptRuleBackendHandler.java:64 | a key leaves the map exactly when a column of a dropped rule names it; every other entry keeps its value |
| DropEncryptRule.ConfigurationRemoval | shardingsphere-proxy/shardingsphere-proxy-backend/src/main/java/org/apache/shardingsphere/proxy/backend/text/distsql/rdl/impl/DropEncryptRuleBackendHandler.java:66-68 | removing the encrypt configuration from the collection leaves no entry for it and the other entries in their order |
| AlterEncryptRule.AlteredRuleNames | shardingsphere-proxy/shardingsphere-proxy-backend/src/main/java/org/apache/shardingsphere/proxy/backend/text/distsql/rdl/impl/AlterEncryptRuleBackendHandler.java:110-112 | one altered name per statement rule, in statement order |
| AlterEncryptRule.EncryptorTypeNames | shardingsphere-proxy/shardingsphere-proxy-backend/src/main/java/org/apache/shardingsphere/proxy/backend/text/distsql/rdl/impl/AlterEncryptRuleBackendHandler.java:82-83 | a type name is collected exactly when some column of some rule names it |
| AlterEncryptRule.CheckAlteredTables | shardingsphere-proxy/shardingsphere-proxy-backend/src/main/java/org/apache/shardingsphere/proxy/backend/text/distsql/rdl/impl/AlterEncryptRuleBackendHandler.java:68-74 | passes exactly when every altered name exists; otherwise fails with RuleNotExisted listing exactly the missing names, with their multiplicity, in statement order |
| AlterEncryptRule.CheckEncryptors | shardingsphere-proxy/shardingsphere-proxy-backend/src/main/java/org/apache/shardingsphere/proxy/backend/text/distsql/rdl/impl/AlterEncryptRuleBackendHandler.java:80-89 | passes exactly when every encryptor type resolves; otherwise fails with InvalidEncryptors listing exactly the unresolved types, once each, in first-seen order |
| AlterEncryptRule.Check | shardingsphere-proxy/shardingsphere-proxy-backend/src/main/java/org/apache/shardingsphere/proxy/backend/text/distsql/rdl/impl/AlterEncryptRuleBackendHandler.java:54-66 | with no encrypt configuration, fails with RuleNotExisted naming every altered table; otherwise passes exactly when all altered names exist and all types resolve, reporting missing tables (a non-empty list) before invalid encryptors; when every altered table exists, a failure is always InvalidEncryptors |
| AlterEncryptRule.DoExecute | shardingsphere-proxy/shardingsphere-proxy-backend/src/main/java/org/apache/shardingsphere/proxy/backend/text/distsql/rdl/impl/AlterEncryptRuleBackendHandler.java:91-100 | the list becomes the unaltered rules followed by the converted rules; the map loses the replaced rules' encryptors and then takes every converted entry, overriding |
| AlterEncryptRule.Execute | shardingsphere-proxy/shardingsphere-proxy-backend/src/main/java/org/apache/shardingsphere/proxy/backend/text/distsql/rdl/impl/AlterEncryptRuleBackendHandler.java:54-100 | check then doExecute, for any statement whose check fails and, when it passes, for names whose lookups all succeed: the result is the check's verdict; on failure nothing changes; on success the state is that of DoExecute, and no configuration other than the current one changes |
| AlterEncryptRule.CheckEnablesExecute | shardingsphere-proxy/shardingsphere-proxy-backend/src/main/java/org/apache/shardingsphere/proxy/backend/text/distsql/rdl/impl/AlterEncryptRuleBackendHandler.java:68-105 | a passed check on distinct altered names lets every lookup of drop succeed |
| AlterEncryptRule.AlteredTablesLayout | shardingsphere-proxy/shardingsphere-proxy-backend/src/main/java/org/apache/shardingsphere/proxy/backend/text/distsql/rdl/impl/AlterEncryptRuleBackendHandler.java:97-108 | the converted rules form the tail of the new list; the rules before them are the old list minus one rule per altered name, in their old order |
| AlterEncryptRule.AlterKeepsUnalteredTables | shardingsphere-proxy/shardingsphere-proxy-backend/src/main/java/org/apache/shardingsphere/proxy/backend/text/distsql/rdl/impl/AlterEncryptRuleBackendHandler.java:102-108 | with unique table names and distinct existing altered names, the rules kept before the converted ones are exactly the rules whose names were not altered, in their old order |
| AlterEncryptRule.AlterEncryptorEntries | shardingsphere-proxy/shardingsphere-proxy-backend/src/main/java/org/apache/shardingsphere/proxy/backend/text/distsql/rdl/impl/AlterEncryptRuleBackendHandler.java:99-106 | every converted encryptor is present with its new value; a key neither converted nor named by a replaced rule keeps its value; a replaced rule's key that is not converted is gone |

## Left out

- The static registration of encrypt algorithms and `TypedSPIRegistry.findRegisteredService` are not part of this model. The registry is the parameter `resolvable`, a predicate on type names.
- `EncryptRuleStatementConverter.convert` and `YamlRuleConfigurationSwapperEngine` are not part of this model. Their result is the parameter `altered` of `AlterEncryptRule.DoExecute`, a configuration object distinct from the current one.
- `ProxyContext`, `BackendConnection` and the `RDLBackendHandler` base class are not part of this model. The base class looks up and persists the configuration. The current configuration and the schema's rule metadata are inputs. `findCurrentRuleConfiguration` is modelled as the first encrypt entry (`FindEncryptRule`).
- Exceptions are modelled as the `Failed` result of `CheckResult`. The `NoSuchElementException` of a failed lookup is excluded by the `LookupsSucceed` precondition, not modelled as a result.
- `findAny()` on the sequential stream is modelled as returning the first match.
- AlterEncryptRule.CheckEncryptors: each rule's type names pass through a `HashSet` in the source, whose iteration order is unspecified. The model takes them in column order, so the first-seen order it proves is relative to that column order. The source fixes only the order from one rule to the next.
- DropEncryptRule.Execute: requires `LookupsSucceed` only when the check passes, so a statement whose check fails is accepted whatever its names. A name repeated in the statement that only one rule carries (always the case with unique table names) passes the source's check, and then `doExecute` throws on the second lookup, after it has already removed the first rule and its encryptors. That partial removal is not modelled. A name repeated no more often than rules carry it passes and is modelled: each lookup removes the next such rule.
- AlterEncryptRule.Execute: requires `LookupsSucceed` for the altered names only when the check passes, for the same reason as DROP.
- The iteration order of the encryptor map is not modelled. Dafny maps are unordered.
- Algorithm properties are opaque strings. Columns other than the encryptor name are carried but not interpreted.
- Concurrency, publication of the new configuration to readers, and persistence are not modelled. Neither handler contains them.
