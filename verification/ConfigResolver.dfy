/** The layered configuration resolver: values and per-field provenance folded over the layers. */
module ConfigResolver {

  import opened Wrappers
  import opened Collections

  datatype PolicyName =
    | CommandPolicy | FileScopePolicy | ValidationPolicy | RetryPolicy
    | EscalationPolicy | LeasePolicy | RetentionPolicy | ReviewPolicy

  const POLICY_NAMES: seq<PolicyName> :=
    [CommandPolicy, FileScopePolicy, ValidationPolicy, RetryPolicy,
     EscalationPolicy, LeasePolicy, RetentionPolicy, ReviewPolicy]

  /** The fields of the eight policy types. */
  datatype FieldName =
    | Mode | AllowedCommands | DeniedPatterns | ForbiddenArgPatterns | AllowShellOperators | OnViolation
    | ReadRoots | WriteRoots | DenyRoots | AllowReadOutsideScope | AllowWriteOutsideScope
    | Profiles
    | MaxAttempts | BackoffStrategy | InitialBackoffSeconds | MaxBackoffSeconds | ReuseSamePool
    | AllowPoolChangeAfterFailure | RequireFailureSummaryPacket
    | Triggers | RouteTo | RequireSummary
    | LeaseTtlSeconds | HeartbeatIntervalSeconds | MissedHeartbeatThreshold | GracePeriodSeconds | ReclaimAction
    | WorkspaceRetentionHours | ArtifactRetentionDays | RetainFailedWorkspaces | RetainEscalatedWorkspaces
    | MaxReviewRounds | RequiredReviewerTypes | OptionalReviewerTypes | LeadReviewerRequired

  /** A key of a policy or an override object; an override may carry keys no policy has. */
  datatype Field = Listed(field: FieldName) | Unlisted(name: string)

  type Value = string

  /** The fields each merge function builds. */
  function FieldNames(p: PolicyName): set<FieldName> {
    match p
    case CommandPolicy =>
      {Mode, AllowedCommands, DeniedPatterns, ForbiddenArgPatterns, AllowShellOperators, OnViolation}
    case FileScopePolicy =>
      {ReadRoots, WriteRoots, DenyRoots, AllowReadOutsideScope, AllowWriteOutsideScope, OnViolation}
    case ValidationPolicy => {Profiles}
    case RetryPolicy =>
      {MaxAttempts, BackoffStrategy, InitialBackoffSeconds, MaxBackoffSeconds, ReuseSamePool,
       AllowPoolChangeAfterFailure, RequireFailureSummaryPacket}
    case EscalationPolicy => {Triggers, RouteTo, RequireSummary}
    case LeasePolicy =>
      {LeaseTtlSeconds, HeartbeatIntervalSeconds, MissedHeartbeatThreshold, GracePeriodSeconds, ReclaimAction}
    case RetentionPolicy =>
      {WorkspaceRetentionHours, ArtifactRetentionDays, RetainFailedWorkspaces, RetainEscalatedWorkspaces}
    case ReviewPolicy =>
      {MaxReviewRounds, RequiredReviewerTypes, OptionalReviewerTypes, LeadReviewerRequired}
  }

  function FieldsOf(p: PolicyName): set<Field> {
    set n | n in FieldNames(p) :: Listed(n)
  }

  /** A field of an override object; an absent key reads as undefined. */
  datatype OverrideValue = Undefined | Null | Defined(value: Value)

  type Policy = map<Field, Value>
  type Override = map<Field, OverrideValue>
  type FactoryConfig = map<PolicyName, Policy>

  /** The layer names of the precedence list, lowest first; the name itself is unchecked input. */
  datatype Layer =
    | System | Environment | Organization | RepositoryWorkflow | Pool | TaskType | Task | OperatorOverride
    | UnknownLayer(name: string)

  datatype LayerEntry = LayerEntry(layer: Layer, source: string, config: map<PolicyName, Override>)

  datatype Source = Source(layer: Layer, source: string)

  datatype ResolvedPolicy = ResolvedPolicy(value: Policy, fieldSources: map<Field, Source>)

  type ResolvedConfig = map<PolicyName, ResolvedPolicy>

  datatype Error = Unknown(layer: Layer) | OutOfOrder(layer: Layer)

  const SYSTEM_SOURCE: Source := Source(System, "system-defaults")

  /** The layers from lowest to highest precedence. */
  const LAYER_PRECEDENCE: seq<Layer> :=
    [System, Environment, Organization, RepositoryWorkflow, Pool, TaskType, Task, OperatorOverride]

  ghost predicate StandsAt(layer: Layer, k: int) {
    0 <= k < |LAYER_PRECEDENCE| && LAYER_PRECEDENCE[k] == layer
  }

  /** No later in the precedence list. */
  ghost predicate NotAbove(a: Layer, b: Layer) {
    exists i, k :: StandsAt(a, i) && StandsAt(b, k) && i <= k
  }

  /** Position in the precedence list, -1 when the layer is not in it. */
  function Precedence(layer: Layer): int {
    match layer
    case System => 0
    case Environment => 1
    case Organization => 2
    case RepositoryWorkflow => 3
    case Pool => 4
    case TaskType => 5
    case Task => 6
    case OperatorOverride => 7
    case UnknownLayer(_) => -1
  }

  /** A configuration of the declared type: every policy, with exactly its fields. */
  ghost predicate WellFormed(c: FactoryConfig) {
    forall p :: p in c && c[p].Keys == FieldsOf(p)
  }

  // ----- Order check -----

  lemma PrecedenceIsPosition(layer: Layer, k: int)
    ensures StandsAt(layer, k) <==> Precedence(layer) == k >= 0
    ensures layer in LAYER_PRECEDENCE <==> Precedence(layer) >= 0
    ensures layer in LAYER_PRECEDENCE <==> !layer.UnknownLayer?
  {
    assert Precedence(layer) >= 0 ==> LAYER_PRECEDENCE[Precedence(layer)] == layer;
  }

  lemma NotAboveIff(a: Layer, b: Layer)
    ensures NotAbove(a, b) <==> 0 <= Precedence(a) <= Precedence(b)
  {
    forall k
      ensures StandsAt(a, k) <==> Precedence(a) == k >= 0
      ensures StandsAt(b, k) <==> Precedence(b) == k >= 0
    {
      PrecedenceIsPosition(a, k);
      PrecedenceIsPosition(b, k);
    }
    if 0 <= Precedence(a) <= Precedence(b) {
      assert StandsAt(a, Precedence(a)) && StandsAt(b, Precedence(b));
    }
  }

  /** Every layer is in the list, and positions never fall. */
  ghost predicate InOrder(layers: seq<LayerEntry>) {
    && (forall i :: 0 <= i < |layers| ==> layers[i].layer in LAYER_PRECEDENCE)
    && (forall i, j :: 0 <= i < j < |layers| ==> NotAbove(layers[i].layer, layers[j].layer))
  }

  ghost predicate Rising(layers: seq<LayerEntry>) {
    && (forall i :: 0 <= i < |layers| ==> Precedence(layers[i].layer) >= 0)
    && (forall i, j :: 0 <= i < j < |layers| ==> Precedence(layers[i].layer) <= Precedence(layers[j].layer))
  }

  lemma InOrderIff(layers: seq<LayerEntry>)
    ensures InOrder(layers) <==> Rising(layers)
  {
    forall i | 0 <= i < |layers|
      ensures layers[i].layer in LAYER_PRECEDENCE <==> Precedence(layers[i].layer) >= 0
    {
      PrecedenceIsPosition(layers[i].layer, 0);
    }
    forall i, j | 0 <= i < j < |layers|
      ensures NotAbove(layers[i].layer, layers[j].layer) <==>
              0 <= Precedence(layers[i].layer) <= Precedence(layers[j].layer)
    {
      NotAboveIff(layers[i].layer, layers[j].layer);
    }
  }

  /** The check accepts a list exactly when every layer is known and precedences never fall across
      it; a refusal names a layer that is unknown or that some earlier one outranks. */
  method ValidateLayerOrder(layers: seq<LayerEntry>) returns (error: Option<Error>)
    ensures error.None? <==> InOrder(layers)
    ensures error.Some? && error.value.Unknown? ==> error.value.layer !in LAYER_PRECEDENCE
    ensures error.Some? && error.value.OutOfOrder? ==>
              exists i, j :: 0 <= i < j < |layers| && layers[j].layer == error.value.layer
                             && !NotAbove(layers[i].layer, layers[j].layer)
  {
    InOrderIff(layers);
    var lastPrecedence := -1;
    for i := 0 to |layers|
      invariant forall k :: 0 <= k < i ==>
          0 <= Precedence(layers[k].layer) <= lastPrecedence
      invariant forall j, k :: 0 <= j < k < i ==> Precedence(layers[j].layer) <= Precedence(layers[k].layer)
      invariant if i == 0 then lastPrecedence == -1 else lastPrecedence == Precedence(layers[i - 1].layer)
    {
      var precedence := Precedence(layers[i].layer);
      if precedence == -1 {
        PrecedenceIsPosition(layers[i].layer, 0);
        return Some(Unknown(layers[i].layer));
      }
      if precedence < lastPrecedence {
        NotAboveIff(layers[i - 1].layer, layers[i].layer);
        return Some(OutOfOrder(layers[i].layer));
      }
      lastPrecedence := precedence;
    }
    error := None;
  }

  // ----- What the resolved configuration should be -----

  function ValueIn(entry: LayerEntry, p: PolicyName, f: Field): OverrideValue {
    if p in entry.config && f in entry.config[p] then entry.config[p][f] else Undefined
  }

  /** The last layer that gives the field a value, or -1. */
  function Supplier(layers: seq<LayerEntry>, p: PolicyName, f: Field): (r: int)
    ensures -1 <= r < |layers|
    ensures r >= 0 ==> ValueIn(layers[r], p, f).Defined?
  {
    if layers == [] then -1
    else if ValueIn(Last(layers), p, f).Defined? then |layers| - 1
    else Supplier(Init(layers), p, f)
  }

  /** The last layer that mentions the field at all, even as null, or -1. */
  function Mentioner(layers: seq<LayerEntry>, p: PolicyName, f: Field): (r: int)
    ensures -1 <= r < |layers|
    ensures r >= 0 ==> !ValueIn(layers[r], p, f).Undefined?
  {
    if layers == [] then -1
    else if !ValueIn(Last(layers), p, f).Undefined? then |layers| - 1
    else Mentioner(Init(layers), p, f)
  }

  lemma {:induction false} NoneAfterSupplier(layers: seq<LayerEntry>, p: PolicyName, f: Field, k: nat)
    requires k < |layers| && ValueIn(layers[k], p, f).Defined?
    ensures k <= Supplier(layers, p, f)
  {
    if !ValueIn(Last(layers), p, f).Defined? {
      assert Init(layers)[k] == layers[k];
      NoneAfterSupplier(Init(layers), p, f, k);
    }
  }

  function SourceOf(entry: LayerEntry): Source {
    Source(entry.layer, entry.source)
  }

  function SourceAt(layers: seq<LayerEntry>, i: int): Source
    requires -1 <= i < |layers|
  {
    if i < 0 then SYSTEM_SOURCE else SourceOf(layers[i])
  }

  function ValueAt(layers: seq<LayerEntry>, default: Value, p: PolicyName, f: Field): Value {
    var i := Supplier(layers, p, f);
    if i < 0 then default else ValueIn(layers[i], p, f).value
  }

  lemma {:induction false} OneMoreLayer(layers: seq<LayerEntry>, i: nat, default: Value, p: PolicyName, f: Field)
    requires i < |layers|
    ensures ValueAt(layers[..i + 1], default, p, f) ==
            if ValueIn(layers[i], p, f).Defined? then ValueIn(layers[i], p, f).value
            else ValueAt(layers[..i], default, p, f)
  {
    assert Init(layers[..i + 1]) == layers[..i] && Last(layers[..i + 1]) == layers[i];
  }

  lemma {:induction false} OneMoreMention(layers: seq<LayerEntry>, i: nat, p: PolicyName, f: Field)
    requires i < |layers|
    ensures Mentioner(layers[..i + 1], p, f) >= 0 <==>
            (!ValueIn(layers[i], p, f).Undefined? || Mentioner(layers[..i], p, f) >= 0)
    ensures SourceAt(layers[..i + 1], Mentioner(layers[..i + 1], p, f)) ==
            if ValueIn(layers[i], p, f).Undefined? then SourceAt(layers[..i], Mentioner(layers[..i], p, f))
            else SourceOf(layers[i])
  {
    assert Init(layers[..i + 1]) == layers[..i] && Last(layers[..i + 1]) == layers[i];
  }

  /** One field: its value comes from the last layer that supplies it, its source from the last that
      mentions it; a source is recorded for every field of the policy and every field mentioned. */
  ghost predicate FieldResolves(layers: seq<LayerEntry>, defaults: Policy, p: PolicyName, r: ResolvedPolicy, f: Field) {
    var m := Mentioner(layers, p, f);
    && (f in r.value <==> f in defaults)
    && (f in defaults ==> f in r.value && r.value[f] == ValueAt(layers, defaults[f], p, f))
    && (f in r.fieldSources <==> f in defaults || m >= 0)
    && (f in r.fieldSources ==> r.fieldSources[f] == SourceAt(layers, m))
  }

  ghost predicate PolicyResolves(layers: seq<LayerEntry>, defaults: Policy, p: PolicyName, r: ResolvedPolicy) {
    forall f :: FieldResolves(layers, defaults, p, r, f)
  }

  lemma {:induction false} ResolvedKeys(layers: seq<LayerEntry>, defaults: Policy, p: PolicyName, r: ResolvedPolicy)
    requires PolicyResolves(layers, defaults, p, r)
    ensures r.value.Keys == defaults.Keys
  {
    forall f
      ensures f in r.value.Keys <==> f in defaults.Keys
    {
      assert FieldResolves(layers, defaults, p, r, f);
    }
  }

  ghost predicate Resolves(layers: seq<LayerEntry>, defaults: FactoryConfig, r: ResolvedConfig)
    requires WellFormed(defaults)
  {
    forall p :: p in r && PolicyResolves(layers, defaults[p], p, r[p])
  }

  // ----- The resolver -----

  /** Each declared field takes the override's value unless that is null or undefined. */
  function Merge(fields: set<Field>, base: Policy, override: Override): (r: Policy)
    requires base.Keys == fields
  {
    map f | f in fields :: if f in override && override[f].Defined? then override[f].value else base[f]
  }

  method InitFieldSources(policy: Policy, source: Source) returns (sources: map<Field, Source>)
    ensures sources.Keys == policy.Keys
    ensures forall f :: f in sources ==> sources[f] == source
  {
    sources := map[];
    var rest := policy.Keys;
    while rest != {}
      invariant rest <= policy.Keys && sources.Keys == policy.Keys - rest
      invariant forall f :: f in sources ==> sources[f] == source
    {
      var f :| f in rest;
      sources := sources[f := source];
      rest := rest - {f};
    }
  }

  ghost predicate Mentions(override: Override, f: Field) {
    f in override && override[f] != Undefined
  }

  /** The attribution after one layer: fields it mentions move to it, all others stay. */
  ghost predicate Reattributed(before: map<Field, Source>, override: Override, source: Source,
                               after: map<Field, Source>) {
    && (forall f :: f in after <==> f in before || Mentions(override, f))
    && (forall f :: f in after ==> after[f] == if Mentions(override, f) then source else before[f])
  }

  /** A field is re-attributed when the override's entry is anything but undefined: null included. */
  method UpdateFieldSources(current: map<Field, Source>, override: Override, source: Source)
    returns (updated: map<Field, Source>)
    ensures Reattributed(current, override, source, updated)
  {
    updated := current;
    var rest := override.Keys;
    while rest != {}
      invariant rest <= override.Keys
      invariant forall f :: f in updated <==> f in current || (Mentions(override, f) && f !in rest)
      invariant forall f :: f in updated ==>
                  updated[f] == if Mentions(override, f) && f !in rest then source else current[f]
    {
      var f :| f in rest;
      if override[f] != Undefined {
        updated := updated[f := source];
      }
      rest := rest - {f};
    }
  }

  lemma {:induction false} LayerApplied(layers: seq<LayerEntry>, i: nat, defaults: Policy, p: PolicyName,
                                        before: ResolvedPolicy, after: ResolvedPolicy, f: Field)
    requires i < |layers| && p in layers[i].config && before.value.Keys == defaults.Keys
    requires FieldResolves(layers[..i], defaults, p, before, f)
    requires after.value == Merge(defaults.Keys, before.value, layers[i].config[p])
    requires Reattributed(before.fieldSources, layers[i].config[p], SourceOf(layers[i]), after.fieldSources)
    ensures FieldResolves(layers[..i + 1], defaults, p, after, f)
  {
    OneMoreMention(layers, i, p, f);
    if f in defaults {
      OneMoreLayer(layers, i, defaults[f], p, f);
    }
    assert Mentions(layers[i].config[p], f) <==> !ValueIn(layers[i], p, f).Undefined?;
  }

  lemma {:induction false} LayerSkipped(layers: seq<LayerEntry>, i: nat, defaults: Policy, p: PolicyName,
                                        r: ResolvedPolicy, f: Field)
    requires i < |layers| && p !in layers[i].config && FieldResolves(layers[..i], defaults, p, r, f)
    ensures FieldResolves(layers[..i + 1], defaults, p, r, f)
  {
    OneMoreMention(layers, i, p, f);
    if f in defaults {
      OneMoreLayer(layers, i, defaults[f], p, f);
    }
  }

  /** One layer on one policy: the body of the inner loop. */
  method ApplyToPolicy(layers: seq<LayerEntry>, i: nat, defaults: Policy, p: PolicyName, before: ResolvedPolicy)
    returns (after: ResolvedPolicy)
    requires i < |layers| && PolicyResolves(layers[..i], defaults, p, before) && defaults.Keys == FieldsOf(p)
    ensures PolicyResolves(layers[..i + 1], defaults, p, after)
  {
    var entry := layers[i];
    ghost var upto := layers[..i + 1];
    if p !in entry.config {
      forall f
        ensures FieldResolves(upto, defaults, p, before, f)
      {
        LayerSkipped(layers, i, defaults, p, before, f);
      }
      return before;
    }
    ResolvedKeys(layers[..i], defaults, p, before);
    var override := entry.config[p];
    var value := Merge(FieldsOf(p), before.value, override);
    var fieldSources := UpdateFieldSources(before.fieldSources, override, SourceOf(entry));
    after := ResolvedPolicy(value, fieldSources);
    forall f
      ensures FieldResolves(upto, defaults, p, after, f)
    {
      LayerApplied(layers, i, defaults, p, before, after, f);
    }
  }

  /** One layer over all policies: the inner loop. */
  method ApplyLayer(layers: seq<LayerEntry>, i: nat, defaults: FactoryConfig, before: ResolvedConfig)
    returns (state: ResolvedConfig)
    requires WellFormed(defaults) && i < |layers| && Resolves(layers[..i], defaults, before)
    ensures Resolves(layers[..i + 1], defaults, state)
  {
    state := before;
    for j := 0 to |POLICY_NAMES|
      invariant forall p :: p in state
      invariant forall p :: p !in POLICY_NAMES[..j] ==> state[p] == before[p]
      invariant forall p :: p in POLICY_NAMES[..j] ==> PolicyResolves(layers[..i + 1], defaults[p], p, state[p])
    {
      var p := POLICY_NAMES[j];
      PoliciesSoFar(j);
      var after := ApplyToPolicy(layers, i, defaults[p], p, state[p]);
      state := state[p := after];
    }
    AllPoliciesListed();
  }

  lemma PoliciesSoFar(j: nat)
    requires j < |POLICY_NAMES|
    ensures forall p :: p in POLICY_NAMES[..j + 1] <==> p in POLICY_NAMES[..j] || p == POLICY_NAMES[j]
    ensures POLICY_NAMES[j] !in POLICY_NAMES[..j]
  {
    assert POLICY_NAMES[..j + 1] == POLICY_NAMES[..j] + [POLICY_NAMES[j]];
  }

  lemma AllPoliciesListed()
    ensures forall p: PolicyName :: p in POLICY_NAMES[..|POLICY_NAMES|]
  {
    forall p: PolicyName
      ensures p in POLICY_NAMES[..|POLICY_NAMES|]
    {
      var k := match p
        case CommandPolicy => 0
        case FileScopePolicy => 1
        case ValidationPolicy => 2
        case RetryPolicy => 3
        case EscalationPolicy => 4
        case LeasePolicy => 5
        case RetentionPolicy => 6
        case ReviewPolicy => 7;
      assert POLICY_NAMES[..|POLICY_NAMES|][k] == p;
    }
  }

  method InitialState(defaults: FactoryConfig) returns (state: ResolvedConfig)
    requires WellFormed(defaults)
    ensures Resolves([], defaults, state)
  {
    state := map[];
    for j := 0 to |POLICY_NAMES|
      invariant forall p :: p in POLICY_NAMES[..j] ==> p in state && PolicyResolves([], defaults[p], p, state[p])
    {
      var p := POLICY_NAMES[j];
      PoliciesSoFar(j);
      var fieldSources := InitFieldSources(defaults[p], SYSTEM_SOURCE);
      state := state[p := ResolvedPolicy(defaults[p], fieldSources)];
    }
    AllPoliciesListed();
  }

  /** Accepted layer lists resolve every field to its last supplier and its last mention. */
  method ResolveConfig(layers: seq<LayerEntry>, defaults: FactoryConfig) returns (r: Result<ResolvedConfig, Error>)
    requires WellFormed(defaults)
    ensures r.Ok? <==> InOrder(layers)
    ensures r.Ok? ==> Resolves(layers, defaults, r.value)
  {
    var error := ValidateLayerOrder(layers);
    if error.Some? {
      return Err(error.value);
    }
    var state := InitialState(defaults);
    assert layers[..0] == [];
    for i := 0 to |layers|
      invariant Resolves(layers[..i], defaults, state)
    {
      state := ApplyLayer(layers, i, defaults, state);
    }
    assert layers[..|layers|] == layers;
    r := Ok(state);
  }

  ghost function ExtractValues(r: ResolvedConfig): FactoryConfig {
    map p | p in r :: r[p].value
  }

  // ----- What a reader of the result may rely on -----

  /** The layer that supplies a field has the highest precedence of all layers that define it. */
  lemma {:induction false} SupplierHasMaximalPrecedence(layers: seq<LayerEntry>, p: PolicyName, f: Field, k: nat)
    requires InOrder(layers) && k < |layers| && ValueIn(layers[k], p, f).Defined?
    ensures Supplier(layers, p, f) >= 0
    ensures NotAbove(layers[k].layer, layers[Supplier(layers, p, f)].layer)
  {
    NoneAfterSupplier(layers, p, f, k);
    OrderedPair(layers, k, Supplier(layers, p, f));
  }

  lemma OrderedPair(layers: seq<LayerEntry>, i: nat, j: nat)
    requires InOrder(layers) && i <= j < |layers|
    ensures NotAbove(layers[i].layer, layers[j].layer)
  {
    InOrderIff(layers);
    NotAboveIff(layers[i].layer, layers[j].layer);
  }

  ghost predicate DefinesLast(layers: seq<LayerEntry>, p: PolicyName, f: Field, k: nat)
    requires k < |layers|
  {
    ValueIn(layers[k], p, f).Defined? && forall j :: k < j < |layers| ==> !ValueIn(layers[j], p, f).Defined?
  }

  ghost predicate MentionsLast(layers: seq<LayerEntry>, p: PolicyName, f: Field, k: nat)
    requires k < |layers|
  {
    ValueIn(layers[k], p, f) != Undefined && forall j :: k < j < |layers| ==> ValueIn(layers[j], p, f) == Undefined
  }

  lemma {:induction false} NoneAfterMentioner(layers: seq<LayerEntry>, p: PolicyName, f: Field, k: nat)
    requires k < |layers| && ValueIn(layers[k], p, f) != Undefined
    ensures k <= Mentioner(layers, p, f)
  {
    if ValueIn(Last(layers), p, f).Undefined? {
      assert Init(layers)[k] == layers[k];
      NoneAfterMentioner(Init(layers), p, f, k);
    }
  }

  /** The value of the last entry that defines a field is its resolved value; the last entry that mentions
      it is its source, by layer and source text. */
  lemma {:induction false} LastEntryWins(layers: seq<LayerEntry>, defaults: FactoryConfig, r: ResolvedConfig,
                                         p: PolicyName, f: Field, k: nat)
    requires WellFormed(defaults) && Resolves(layers, defaults, r) && f in defaults[p] && k < |layers|
    ensures f in r[p].value && f in r[p].fieldSources
    ensures DefinesLast(layers, p, f, k) ==> r[p].value[f] == ValueIn(layers[k], p, f).value
    ensures MentionsLast(layers, p, f, k) ==> r[p].fieldSources[f] == Source(layers[k].layer, layers[k].source)
  {
    assert PolicyResolves(layers, defaults[p], p, r[p]) && FieldResolves(layers, defaults[p], p, r[p], f);
    if DefinesLast(layers, p, f, k) {
      NoneAfterSupplier(layers, p, f, k);
    }
    if MentionsLast(layers, p, f, k) {
      NoneAfterMentioner(layers, p, f, k);
    }
  }

  /** A field no entry defines keeps its default, and one no entry mentions is attributed to the system. */
  lemma {:induction false} DefaultsStay(layers: seq<LayerEntry>, defaults: FactoryConfig, r: ResolvedConfig,
                                        p: PolicyName, f: Field)
    requires WellFormed(defaults) && Resolves(layers, defaults, r) && f in defaults[p]
    ensures f in r[p].value && f in r[p].fieldSources
    ensures (forall k :: 0 <= k < |layers| ==> !ValueIn(layers[k], p, f).Defined?) ==> r[p].value[f] == defaults[p][f]
    ensures (forall k :: 0 <= k < |layers| ==> ValueIn(layers[k], p, f) == Undefined) ==>
              r[p].fieldSources[f] == Source(System, "system-defaults")
  {
    assert PolicyResolves(layers, defaults[p], p, r[p]) && FieldResolves(layers, defaults[p], p, r[p], f);
  }

  /** In an accepted list the operator's override wins: a field some OperatorOverride entry defines takes
      the last such entry's value, whatever the other layers say. */
  lemma {:induction false} OperatorWins(layers: seq<LayerEntry>, defaults: FactoryConfig, r: ResolvedConfig,
                                        p: PolicyName, f: Field, k: nat)
    requires WellFormed(defaults) && Resolves(layers, defaults, r) && f in defaults[p]
    requires InOrder(layers) && k < |layers| && layers[k].layer == OperatorOverride && ValueIn(layers[k], p, f).Defined?
    requires forall j :: k < j < |layers| && layers[j].layer == OperatorOverride ==> !ValueIn(layers[j], p, f).Defined?
    ensures f in r[p].value && r[p].value[f] == ValueIn(layers[k], p, f).value
  {
    InOrderIff(layers);
    forall j | k < j < |layers|
      ensures layers[j].layer == OperatorOverride
    {
      assert Precedence(layers[k].layer) <= Precedence(layers[j].layer);
    }
    assert DefinesLast(layers, p, f, k);
    LastEntryWins(layers, defaults, r, p, f, k);
  }

  /** And a system entry's value survives only if no other layer defines the field. */
  lemma {:induction false} SystemYields(layers: seq<LayerEntry>, p: PolicyName, f: Field, k: nat)
    requires InOrder(layers) && k < |layers| && layers[k].layer == System && DefinesLast(layers, p, f, k)
    ensures forall j :: 0 <= j < |layers| && layers[j].layer != System ==> !ValueIn(layers[j], p, f).Defined?
  {
    InOrderIff(layers);
    forall j | 0 <= j < k
      ensures layers[j].layer == System
    {
      assert Precedence(layers[j].layer) <= Precedence(layers[k].layer);
    }
  }

  /** Read by field: which policies a field belongs to. */
  lemma FieldBelongsTo(n: FieldName, p: PolicyName)
    ensures Listed(n) in FieldsOf(p) <==>
            match n
            case Mode | AllowedCommands | DeniedPatterns | ForbiddenArgPatterns | AllowShellOperators =>
              p == CommandPolicy
            case OnViolation => p == CommandPolicy || p == FileScopePolicy
            case ReadRoots | WriteRoots | DenyRoots | AllowReadOutsideScope | AllowWriteOutsideScope =>
              p == FileScopePolicy
            case Profiles => p == ValidationPolicy
            case MaxAttempts | BackoffStrategy | InitialBackoffSeconds | MaxBackoffSeconds | ReuseSamePool
               | AllowPoolChangeAfterFailure | RequireFailureSummaryPacket => p == RetryPolicy
            case Triggers | RouteTo | RequireSummary => p == EscalationPolicy
            case LeaseTtlSeconds | HeartbeatIntervalSeconds | MissedHeartbeatThreshold | GracePeriodSeconds
               | ReclaimAction => p == LeasePolicy
            case WorkspaceRetentionHours | ArtifactRetentionDays | RetainFailedWorkspaces
               | RetainEscalatedWorkspaces => p == RetentionPolicy
            case MaxReviewRounds | RequiredReviewerTypes | OptionalReviewerTypes | LeadReviewerRequired =>
              p == ReviewPolicy
    ensures forall name :: Unlisted(name) !in FieldsOf(p)
  {
    assert Listed(n) in FieldsOf(p) <==> n in FieldNames(p);
  }

  /** The recorded source is taken from the supplying entry exactly when the last entry that mentions
      the field does not set it to null. */
  lemma {:induction false} SourceNamesSupplierIff(layers: seq<LayerEntry>, p: PolicyName, f: Field)
    ensures Mentioner(layers, p, f) == Supplier(layers, p, f) <==>
            (Mentioner(layers, p, f) < 0 || ValueIn(layers[Mentioner(layers, p, f)], p, f) != Null)
  {
    if layers != [] && ValueIn(Last(layers), p, f).Undefined? {
      SourceNamesSupplierIff(Init(layers), p, f);
    }
  }

  /** No two entries, nor an entry and the system defaults, carry the same layer and source text. */
  ghost predicate DistinctSources(layers: seq<LayerEntry>) {
    && (forall i :: 0 <= i < |layers| ==> SourceOf(layers[i]) != SYSTEM_SOURCE)
    && (forall i, j :: 0 <= i < j < |layers| ==> SourceOf(layers[i]) != SourceOf(layers[j]))
  }

  /** So when entries can be told apart, the recorded source reads as the supplier's exactly when the
      last mention is not null. */
  lemma {:induction false} RecordedSourceIsSuppliersIff(layers: seq<LayerEntry>, p: PolicyName, f: Field)
    requires DistinctSources(layers)
    ensures var m := Mentioner(layers, p, f);
            SourceAt(layers, m) == SourceAt(layers, Supplier(layers, p, f)) <==>
                (m < 0 || ValueIn(layers[m], p, f) != Null)
  {
    SourceNamesSupplierIff(layers, p, f);
    var m, i := Mentioner(layers, p, f), Supplier(layers, p, f);
    assert m >= 0 && i >= 0 && m != i ==> SourceOf(layers[m]) != SourceOf(layers[i]);
  }

  /** Layers of the declared type: known fields only, and no nulls. */
  ghost predicate Typed(layers: seq<LayerEntry>, fields: set<Field>, p: PolicyName) {
    forall i, f :: 0 <= i < |layers| ==>
      ValueIn(layers[i], p, f) != Null && (!ValueIn(layers[i], p, f).Undefined? ==> f in fields)
  }

  /** For typed layers every field's recorded source is its supplier's, and the keys always agree. */
  lemma {:induction false} TypedLayersAreAttributed(layers: seq<LayerEntry>, defaults: FactoryConfig,
                                                    r: ResolvedConfig, p: PolicyName)
    requires WellFormed(defaults) && Resolves(layers, defaults, r) && Typed(layers, defaults[p].Keys, p)
    ensures r[p].fieldSources.Keys == r[p].value.Keys
    ensures forall f :: f in r[p].value ==> r[p].fieldSources[f] == SourceAt(layers, Supplier(layers, p, f))
  {
    assert PolicyResolves(layers, defaults[p], p, r[p]);
    forall f
      ensures f in r[p].fieldSources <==> f in r[p].value
      ensures f in r[p].value ==> r[p].fieldSources[f] == SourceAt(layers, Supplier(layers, p, f))
    {
      assert FieldResolves(layers, defaults[p], p, r[p], f);
      SourceNamesSupplierIff(layers, p, f);
    }
  }

  /** Without types it can go wrong: a null in a task layer keeps the organization's value but takes
      the credit for it. */
  lemma {:induction false} NullTakesCredit(defaults: FactoryConfig, r: ResolvedConfig)
    requires WellFormed(defaults)
    requires Resolves([LayerEntry(Organization, "org",
                                  map[LeasePolicy := map[Listed(ReclaimAction) := Defined("retry")]]),
                       LayerEntry(Task, "t1", map[LeasePolicy := map[Listed(ReclaimAction) := Null]])], defaults, r)
    ensures Listed(ReclaimAction) in r[LeasePolicy].value && r[LeasePolicy].value[Listed(ReclaimAction)] == "retry"
    ensures Listed(ReclaimAction) in r[LeasePolicy].fieldSources
            && r[LeasePolicy].fieldSources[Listed(ReclaimAction)] == Source(Task, "t1")
  {
    var org := LayerEntry(Organization, "org", map[LeasePolicy := map[Listed(ReclaimAction) := Defined("retry")]]);
    var task := LayerEntry(Task, "t1", map[LeasePolicy := map[Listed(ReclaimAction) := Null]]);
    var layers := [org, task];
    assert PolicyResolves(layers, defaults[LeasePolicy], LeasePolicy, r[LeasePolicy]);
    assert FieldResolves(layers, defaults[LeasePolicy], LeasePolicy, r[LeasePolicy], Listed(ReclaimAction));
    assert Init(layers) == [org] && Last(layers) == task && Last([org]) == org;
    assert Supplier([org], LeasePolicy, Listed(ReclaimAction)) == 0;
    assert Listed(ReclaimAction) in FieldsOf(LeasePolicy) && defaults[LeasePolicy].Keys == FieldsOf(LeasePolicy);
  }

  // ----- Resolving in two stages -----

  lemma {:induction false} ValueOfConcat(a: seq<LayerEntry>, b: seq<LayerEntry>, default: Value, p: PolicyName,
                                         f: Field)
    ensures ValueAt(a + b, default, p, f) == ValueAt(b, ValueAt(a, default, p, f), p, f)
  {
    if b == [] {
      assert a + b == a;
    } else {
      assert Init(a + b) == a + Init(b) && Last(a + b) == Last(b);
      ValueOfConcat(a, Init(b), default, p, f);
    }
  }

  lemma {:induction false} SourceOfConcat(a: seq<LayerEntry>, b: seq<LayerEntry>, p: PolicyName, f: Field)
    ensures Mentioner(a + b, p, f) >= 0 <==> Mentioner(a, p, f) >= 0 || Mentioner(b, p, f) >= 0
    ensures SourceAt(a + b, Mentioner(a + b, p, f)) ==
            if Mentioner(b, p, f) >= 0 then SourceAt(b, Mentioner(b, p, f)) else SourceAt(a, Mentioner(a, p, f))
  {
    if b == [] {
      assert a + b == a;
    } else {
      assert Init(a + b) == a + Init(b) && Last(a + b) == Last(b);
      SourceOfConcat(a, Init(b), p, f);
    }
  }

  /** One field of A followed by B: the value of B over A's values, and the source B recorded where
      B mentions the field, the one A recorded elsewhere. */
  ghost predicate Staged(b: seq<LayerEntry>, p: PolicyName, ab: ResolvedPolicy, ra: ResolvedPolicy,
                         rb: ResolvedPolicy, f: Field) {
    && (f in ab.value <==> f in rb.value)
    && (f in ab.value ==> f in rb.value && ab.value[f] == rb.value[f])
    && (f in ab.fieldSources <==> f in ra.fieldSources || f in rb.fieldSources)
    && (f in ab.fieldSources ==>
          if Mentioner(b, p, f) >= 0
          then f in rb.fieldSources && ab.fieldSources[f] == rb.fieldSources[f]
          else f in ra.fieldSources && ab.fieldSources[f] == ra.fieldSources[f])
  }

  lemma {:induction false} FieldInTwoStages(a: seq<LayerEntry>, b: seq<LayerEntry>, defaults: Policy, p: PolicyName,
                                            ab: ResolvedPolicy, ra: ResolvedPolicy, rb: ResolvedPolicy, f: Field)
    requires FieldResolves(a + b, defaults, p, ab, f) && FieldResolves(a, defaults, p, ra, f)
    requires FieldResolves(b, ra.value, p, rb, f)
    ensures Staged(b, p, ab, ra, rb, f)
  {
    SourceOfConcat(a, b, p, f);
    if f in defaults {
      ValueOfConcat(a, b, defaults[f], p, f);
    }
  }

  /** Resolving A then B together gives the values of resolving B over the values of A, with sources
      from B for the fields B mentions and from A for the rest. */
  lemma {:induction false} ResolvingInTwoStages(a: seq<LayerEntry>, b: seq<LayerEntry>, defaults: FactoryConfig,
                                                ab: ResolvedConfig, ra: ResolvedConfig, rb: ResolvedConfig,
                                                p: PolicyName, f: Field)
    requires WellFormed(defaults) && Resolves(a + b, defaults, ab) && Resolves(a, defaults, ra)
    requires WellFormed(ExtractValues(ra)) && Resolves(b, ExtractValues(ra), rb)
    ensures Staged(b, p, ab[p], ra[p], rb[p], f)
  {
    assert PolicyResolves(a + b, defaults[p], p, ab[p]) && PolicyResolves(a, defaults[p], p, ra[p]);
    assert PolicyResolves(b, ExtractValues(ra)[p], p, rb[p]) && ExtractValues(ra)[p] == ra[p].value;
    assert FieldResolves(a + b, defaults[p], p, ab[p], f) && FieldResolves(a, defaults[p], p, ra[p], f);
    assert FieldResolves(b, ra[p].value, p, rb[p], f);
    FieldInTwoStages(a, b, defaults[p], p, ab[p], ra[p], rb[p], f);
  }

  lemma {:induction false} ExtractedIsWellFormed(layers: seq<LayerEntry>, defaults: FactoryConfig, r: ResolvedConfig)
    requires WellFormed(defaults) && Resolves(layers, defaults, r)
    ensures WellFormed(ExtractValues(r))
  {
    forall p: PolicyName
      ensures p in ExtractValues(r) && ExtractValues(r)[p].Keys == FieldsOf(p)
    {
      ResolvedKeys(layers, defaults[p], p, r[p]);
    }
  }
}
