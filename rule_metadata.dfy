/** The rule configurations of one schema, of which the encrypt
    configuration is at most one entry. */
module RuleMetaData {
  import opened EncryptRuleConfig

  /** One entry of a schema's rule configurations. Only the encrypt
      configuration is modelled; the sharding and discovery ones are opaque. */
  datatype RuleConfiguration =
    | EncryptRule(encrypt: EncryptRuleConfiguration)
    | OtherRule(category: string, id: nat)

  /** The schema's rule metadata: its collection of rule configurations. */
  class ShardingSphereRuleMetaData {
    var configurations: seq<RuleConfiguration>

    constructor (configurations: seq<RuleConfiguration>)
      ensures this.configurations == configurations
    {
      this.configurations := configurations;
    }
  }

  /** The encrypt configuration of the schema, if any: the first entry that
      is one. */
  function FindEncryptRule(configs: seq<RuleConfiguration>): (r: Option<EncryptRuleConfiguration>)
    ensures r.None? <==> forall i :: 0 <= i < |configs| ==> !configs[i].EncryptRule?
    ensures r.Some? ==> exists i :: 0 <= i < |configs| && configs[i] == EncryptRule(r.value)
                                   && forall j :: 0 <= j < i ==> !configs[j].EncryptRule?
  {
    if configs == [] then None
    else if configs[0].EncryptRule? then Some(configs[0].encrypt)
    else
      var r := FindEncryptRule(configs[1..]);
      assert r.Some? ==> exists i :: 1 <= i < |configs| && configs[i] == EncryptRule(r.value)
                                   && forall j :: 0 <= j < i ==> !configs[j].EncryptRule? by {
        if r.Some? {
          var i :| 0 <= i < |configs[1..]| && configs[1..][i] == EncryptRule(r.value)
                   && forall j :: 0 <= j < i ==> !configs[1..][j].EncryptRule?;
          assert configs[i + 1] == EncryptRule(r.value);
          forall j | 0 <= j < i + 1 ensures !configs[j].EncryptRule? {
            if j > 0 {
              assert configs[j] == configs[1..][j - 1];
            }
          }
        }
      }
      r
  }

  /** The configuration object a handler may change: the schema's encrypt
      configuration, if it has one. */
  function CurrentConfig(configs: seq<RuleConfiguration>): (r: set<EncryptRuleConfiguration>)
    ensures FindEncryptRule(configs).None? ==> r == {}
    ensures FindEncryptRule(configs).Some? ==> r == {FindEncryptRule(configs).value}
  {
    match FindEncryptRule(configs)
    case None => {}
    case Some(c) => {c}
  }

  /** The table rules of the schema's encrypt configuration, if there is one. */
  function CurrentTables(configs: seq<RuleConfiguration>): (r: Option<seq<EncryptTableRule>>)
    reads CurrentConfig(configs)
    ensures r.None? <==> FindEncryptRule(configs).None?
    ensures r.Some? ==> r.value == FindEncryptRule(configs).value.tables
  {
    match FindEncryptRule(configs)
    case None => None
    case Some(c) => Some(c.tables)
  }
}
