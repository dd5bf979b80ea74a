/**
 The CLI's commands over its local files and the contract: registering signers, proposing, signing
 and executing. The manifest file is a local copy of what the contract holds.
 */
module CliMirror {
  import opened Words
  import opened IntentPayload
  import opened ProposalLedger
  import opened Sequences
  import M = MultisigSpec

  /** An entry of signers.json. */
  datatype Identity = Identity(address: Address, pkX: Field, pkY: Field)

  /** An entry of multisigs.json. */
  datatype Manifest = Manifest(address: Address, signers: seq<string>, threshold: nat)

  /** The local files, the current multisig's address, the shared account that calls it, and the contract. */
  datatype Cli = Cli(
    registry: map<string, Identity>, manifests: seq<Manifest>, ledger: Ledger,
    self: Address, account: Address, contract: M.State)

  // ---------- saveMultisig ----------

  function ManifestIndex(manifests: seq<Manifest>, address: Address): (i: nat)
    ensures i <= |manifests|
    ensures forall k :: 0 <= k < i ==> manifests[k].address != address
    ensures i < |manifests| ==> manifests[i].address == address
  {
    FirstWhere(manifests, (m: Manifest) => m.address == address)
  }

  function FindManifest(manifests: seq<Manifest>, address: Address): Option<Manifest> {
    var i := ManifestIndex(manifests, address);
    if i < |manifests| then Some(manifests[i]) else None
  }

  /** Replaces the first entry with this address, or appends. */
  function Save(manifests: seq<Manifest>, m: Manifest): seq<Manifest> {
    var i := ManifestIndex(manifests, m.address);
    if i < |manifests| then manifests[i := m] else manifests + [m]
  }

  lemma SaveThenFind(manifests: seq<Manifest>, m: Manifest, address: Address)
    ensures FindManifest(Save(manifests, m), address) ==
            if address == m.address then Some(m) else FindManifest(manifests, address)
  {
    var after := Save(manifests, m);
    var i, j := ManifestIndex(manifests, address), ManifestIndex(after, address);
    assert forall k :: 0 <= k < |manifests| ==> after[k].address == manifests[k].address;
    if i < |manifests| {
      assert i == j;
    } else if address == m.address {
      assert after[|manifests|] == m && j == |manifests|;
    } else {
      assert j == |after|;
    }
  }

  /** A saved manifest takes the place of the first with its address, or else comes last; all others stay in place. */
  lemma SaveInPlace(manifests: seq<Manifest>, m: Manifest)
    ensures
      var after := Save(manifests, m);
      if FindManifest(manifests, m.address).None? then after == manifests + [m]
      else exists i :: 0 <= i < |manifests| && after == manifests[i := m] && FirstAt(manifests, i, m.address)
  {
    var i := ManifestIndex(manifests, m.address);
    if i < |manifests| {
      assert FirstAt(manifests, i, m.address);
    }
  }

  /** Position `i` is the first with this address. */
  ghost predicate FirstAt(manifests: seq<Manifest>, i: nat, address: Address)
    requires i < |manifests|
  {
    manifests[i].address == address && forall k :: 0 <= k < i ==> manifests[k].address != address
  }

  // ---------- Commands ----------

  datatype Command =
    | CreateSigner(name: string, identity: Identity)
    | ProposeAdd(who: string, name: string, deadline: U64)
    | ProposeRemove(who: string, name: string, deadline: U64)
    | ProposeThreshold(who: string, newThreshold: U32, deadline: U64)
    | ProposeIntent(who: string, intent: Intent, deadline: U64)
    | SignProposal(who: string, hash: Field, bytes: seq<Byte>)
    | Execute(who: string, kind: Kind, hash: Field)

  datatype Kind = AddKind | RemoveKind | ThresholdKind | IntentKind

  function KindOf(data: Data): Kind {
    match data
    case AddSignerData(_, _, _, _, _) => AddKind
    case RemoveSignerData(_, _, _) => RemoveKind
    case ChangeThresholdData(_, _) => ThresholdKind
    case CrossChainIntentData(_, _) => IntentKind
  }

  /** Filing a proposal: the manifest's threshold is copied into it. */
  function Propose(c: M.Crypto, s: Cli, m: Manifest, data: Data): Cli {
    s.(ledger := Create(s.ledger, c, data, m.threshold))
  }

  function ProposeStep(c: M.Crypto, s: Cli, m: Manifest, cmd: Command): Cli {
    match cmd
    case ProposeAdd(who, name, deadline) =>
      if who in m.signers && name in s.registry
      then
        var id := s.registry[name];
        Propose(c, s, m, AddSignerData(name, id.address, id.pkX, id.pkY, deadline))
      else s
    case ProposeRemove(who, name, deadline) =>
      if who in m.signers && name in s.registry && name in m.signers && m.threshold <= |m.signers| - 1
      then Propose(c, s, m, RemoveSignerData(name, s.registry[name].address, deadline))
      else s
    case ProposeThreshold(who, t, deadline) =>
      if who in m.signers && 1 <= t <= |m.signers| && t != m.threshold
      then Propose(c, s, m, ChangeThresholdData(t, deadline))
      else s
    case ProposeIntent(who, intent, deadline) =>
      if who in m.signers then Propose(c, s, m, CrossChainIntentData(intent, deadline)) else s
    case _ => s
  }

  /**
   The gates in front of an execute command. The add command does not check the proposal's type; a
   wrong type fails when its data are read.
   */
  predicate Executable(l: Ledger, m: Manifest, who: string, kind: Kind, hash: Field) {
    && IsPending(l, hash)
    && KindOf(Find(l.proposals, hash).value.data) == kind
    && |SignaturesFor(l.signatures, hash)| >= Find(l.proposals, hash).value.threshold
    && who in m.signers
  }

  function CallFor(s: Cli, hash: Field): M.Call
    requires IsPending(s.ledger, hash)
  {
    M.Call(s.account, ToOp(hash, Find(s.ledger.proposals, hash).value.data,
                           Packed(SignaturesFor(s.ledger.signatures, hash))))
  }

  /** The local update after an accepted call. */
  function Updated(m: Manifest, data: Data): Manifest {
    match data
    case AddSignerData(name, _, _, _, _) => m.(signers := m.signers + [name])
    case RemoveSignerData(name, _, _) => m.(signers := Without(m.signers, name))
    case ChangeThresholdData(t, _) => m.(threshold := t)
    case CrossChainIntentData(_, _) => m
  }

  /** `signers.filter(s => s !== name)`. */
  function Without(signers: seq<string>, name: string): seq<string> {
    if |signers| == 0 then []
    else if signers[0] == name then Without(signers[1..], name)
    else [signers[0]] + Without(signers[1..], name)
  }

  /** An accepted execution: the contract moves, the manifest is saved, the proposal is cleaned up. */
  function Executed(s: Cli, m: Manifest, hash: Field): Cli
    requires IsPending(s.ledger, hash) && M.Applicable(s.contract, CallFor(s, hash).op)
  {
    s.(contract := M.Effect(s.contract, CallFor(s, hash)),
       manifests := Save(s.manifests, Updated(m, Find(s.ledger.proposals, hash).value.data)),
       ledger := Cleanup(s.ledger, hash))
  }

  predicate ExecutionAccepted(c: M.Crypto, s: Cli, m: Manifest, who: string, kind: Kind, hash: Field) {
    Executable(s.ledger, m, who, kind, hash) && M.Accepts(c, s.contract, CallFor(s, hash))
  }

  function Step(c: M.Crypto, s: Cli, cmd: Command): Cli {
    var found := FindManifest(s.manifests, s.self);
    match cmd
    case CreateSigner(name, identity) =>
      if name in s.registry then s else s.(registry := s.registry[name := identity])
    case SignProposal(who, hash, bytes) =>
      if who in s.registry
      then s.(ledger := Sign(s.ledger, Signed(hash, who, s.registry[who].address, bytes)))
      else s
    case Execute(who, kind, hash) =>
      if found.Some? && ExecutionAccepted(c, s, found.value, who, kind, hash)
      then Executed(s, found.value, hash)
      else s
    case _ =>
      if found.Some? then ProposeStep(c, s, found.value, cmd) else s
  }

  lemma ExecuteStep(c: M.Crypto, s: Cli, m: Manifest, who: string, kind: Kind, hash: Field)
    requires FindManifest(s.manifests, s.self) == Some(m)
    ensures Step(c, s, Execute(who, kind, hash)) ==
            if ExecutionAccepted(c, s, m, who, kind, hash) then Executed(s, m, hash) else s
  {
  }

  function Run(c: M.Crypto, s: Cli, cmds: seq<Command>): Cli {
    if |cmds| == 0 then s else Step(c, Run(c, s, cmds[..|cmds| - 1]), cmds[|cmds| - 1])
  }

  // ---------- The mirror ----------

  /** Different registered names stand for different, nonzero addresses. */
  ghost predicate Injective(registry: map<string, Identity>) {
    && (forall n :: n in registry ==> registry[n].address != 0)
    && (forall n, k :: n in registry && k in registry && n != k ==> registry[n].address != registry[k].address)
  }

  ghost predicate Distinct(names: seq<string>) {
    forall i, j :: 0 <= i < j < |names| ==> names[i] != names[j]
  }

  function Addresses(registry: map<string, Identity>, names: seq<string>): set<Address> {
    set n | n in names && n in registry :: registry[n].address
  }

  /** The manifest names exactly the contract's active signers, once each, and has its threshold. */
  ghost predicate Mirrors(registry: map<string, Identity>, m: Manifest, s: M.State) {
    && Distinct(m.signers)
    && (forall n :: n in m.signers ==> n in registry)
    && Addresses(registry, m.signers) == M.Active(s)
    && m.threshold == s.threshold
  }

  /** What proposals and signatures say about a name agrees with the registry. */
  ghost predicate Consistent(registry: map<string, Identity>, l: Ledger) {
    && (forall i :: 0 <= i < |l.proposals| ==> ConsistentData(registry, l.proposals[i].data))
    && (forall i :: 0 <= i < |l.signatures| ==>
          l.signatures[i].name in registry && l.signatures[i].address == registry[l.signatures[i].name].address)
  }

  ghost predicate ConsistentData(registry: map<string, Identity>, data: Data) {
    match data
    case AddSignerData(name, address, _, _, _) => name in registry && registry[name].address == address
    case RemoveSignerData(name, address, _) => name in registry && registry[name].address == address
    case _ => true
  }

  ghost predicate Inv(s: Cli) {
    && Injective(s.registry)
    && Consistent(s.registry, s.ledger)
    && UniqueSigners(s.ledger.signatures)
    && M.Inv(s.contract)
    && FindManifest(s.manifests, s.self).Some?
    && Mirrors(s.registry, FindManifest(s.manifests, s.self).value, s.contract)
  }

  /** The assumption on fresh identities: a new signer's address is nonzero and not in use. */
  ghost predicate FreshIdentity(registry: map<string, Identity>, cmd: Command) {
    cmd.CreateSigner? && cmd.name !in registry ==>
      cmd.identity.address != 0 && forall n :: n in registry ==> registry[n].address != cmd.identity.address
  }

  ghost predicate FreshIdentities(c: M.Crypto, s: Cli, cmds: seq<Command>) {
    forall k :: 0 <= k < |cmds| ==> FreshIdentity(Run(c, s, cmds[..k]).registry, cmds[k])
  }

  lemma WithoutMeaning(signers: seq<string>, name: string)
    ensures forall n :: n in Without(signers, name) <==> n in signers && n != name
    ensures Distinct(signers) ==> Distinct(Without(signers, name))
  {
    if |signers| == 0 {
    } else {
      WithoutMeaning(signers[1..], name);
      var rest := Without(signers[1..], name);
      assert forall i :: 0 <= i < |rest| ==> rest[i] in signers[1..];
    }
  }

  lemma MirrorAdd(registry: map<string, Identity>, m: Manifest, s: M.State, name: string)
    requires Injective(registry) && Mirrors(registry, m, s)
    requires name in registry && !M.IsActive(s, registry[name].address)
    ensures name !in m.signers && Distinct(m.signers + [name])
    ensures Addresses(registry, m.signers + [name]) == M.Active(s) + {registry[name].address}
  {
  }

  lemma MirrorRemove(registry: map<string, Identity>, m: Manifest, s: M.State, name: string)
    requires Injective(registry) && Mirrors(registry, m, s) && name in registry
    ensures Distinct(Without(m.signers, name))
    ensures Addresses(registry, Without(m.signers, name)) == M.Active(s) - {registry[name].address}
  {
    WithoutMeaning(m.signers, name);
  }

  lemma UpdateMirrors(registry: map<string, Identity>, m: Manifest, s: M.State, call: M.Call, data: Data)
    requires Injective(registry) && Mirrors(registry, m, s) && M.Inv(s)
    requires ConsistentData(registry, data)
    requires call.op == ToOp(call.op.hash, data, call.op.signatures) && M.Applicable(s, call.op)
    ensures Mirrors(registry, Updated(m, data), M.Effect(s, call))
  {
    M.EffectPreservesInv(s, call);
    match data
    case AddSignerData(name, address, _, _, _) =>
      MirrorAdd(registry, m, s, name);
    case RemoveSignerData(name, address, _) =>
      MirrorRemove(registry, m, s, name);
      WithoutMeaning(m.signers, name);
    case ChangeThresholdData(_, _) =>
    case CrossChainIntentData(_, _) =>
  }

  lemma CleanupConsistent(registry: map<string, Identity>, l: Ledger, hash: Field)
    requires Consistent(registry, l)
    ensures Consistent(registry, Cleanup(l, hash))
  {
  }

  lemma ExecuteKeepsInv(c: M.Crypto, s: Cli, who: string, kind: Kind, hash: Field)
    requires Inv(s) && ExecutionAccepted(c, s, FindManifest(s.manifests, s.self).value, who, kind, hash)
    ensures Inv(Executed(s, FindManifest(s.manifests, s.self).value, hash))
  {
    var m := FindManifest(s.manifests, s.self).value;
    var data := Find(s.ledger.proposals, hash).value.data;
    var call := CallFor(s, hash);
    M.EffectPreservesInv(s.contract, call);
    UpdateMirrors(s.registry, m, s.contract, call, data);
    SaveThenFind(s.manifests, Updated(m, data), s.self);
    CleanupConsistent(s.registry, s.ledger, hash);
    FilterKeepsUnique(s.ledger.signatures, hash);
  }

  lemma RegisterKeepsInv(s: Cli, name: string, identity: Identity)
    requires Inv(s) && name !in s.registry && FreshIdentity(s.registry, CreateSigner(name, identity))
    ensures Inv(s.(registry := s.registry[name := identity]))
  {
    var m := FindManifest(s.manifests, s.self).value;
    assert Addresses(s.registry[name := identity], m.signers) == Addresses(s.registry, m.signers);
    forall i | 0 <= i < |s.ledger.proposals|
      ensures ConsistentData(s.registry[name := identity], s.ledger.proposals[i].data)
    {
      assert ConsistentData(s.registry, s.ledger.proposals[i].data);
    }
  }

  lemma ProposeKeepsInv(c: M.Crypto, s: Cli, m: Manifest, data: Data)
    requires Inv(s) && ConsistentData(s.registry, data)
    ensures Inv(Propose(c, s, m, data))
  {
  }

  lemma SignKeepsInv(s: Cli, signed: Signed)
    requires Inv(s) && signed.name in s.registry && signed.address == s.registry[signed.name].address
    ensures Inv(s.(ledger := Sign(s.ledger, signed)))
  {
  }

  lemma ProposeStepKeepsInv(c: M.Crypto, s: Cli, m: Manifest, cmd: Command)
    requires Inv(s)
    ensures Inv(ProposeStep(c, s, m, cmd)) && ProposeStep(c, s, m, cmd).self == s.self
  {
    match cmd
    case ProposeAdd(_, name, deadline) =>
      if name in s.registry {
        var id := s.registry[name];
        ProposeKeepsInv(c, s, m, AddSignerData(name, id.address, id.pkX, id.pkY, deadline));
      }
    case ProposeRemove(_, name, deadline) =>
      if name in s.registry {
        ProposeKeepsInv(c, s, m, RemoveSignerData(name, s.registry[name].address, deadline));
      }
    case ProposeThreshold(_, t, deadline) =>
      ProposeKeepsInv(c, s, m, ChangeThresholdData(t, deadline));
    case ProposeIntent(_, intent, deadline) =>
      ProposeKeepsInv(c, s, m, CrossChainIntentData(intent, deadline));
    case _ =>
  }

  lemma StepKeepsInv(c: M.Crypto, s: Cli, cmd: Command)
    requires Inv(s) && FreshIdentity(s.registry, cmd)
    ensures Inv(Step(c, s, cmd))
    ensures Step(c, s, cmd).self == s.self
  {
    var m := FindManifest(s.manifests, s.self).value;
    match cmd
    case CreateSigner(name, identity) =>
      if name !in s.registry {
        RegisterKeepsInv(s, name, identity);
      }
    case SignProposal(who, hash, bytes) =>
      if who in s.registry {
        SignKeepsInv(s, Signed(hash, who, s.registry[who].address, bytes));
      }
    case Execute(who, kind, hash) =>
      if ExecutionAccepted(c, s, m, who, kind, hash) {
        ExecuteKeepsInv(c, s, who, kind, hash);
      }
    case _ => ProposeStepKeepsInv(c, s, m, cmd);
  }

  /** Over any run of commands the manifest stays an exact copy of the contract's signers and threshold. */
  lemma {:induction false} RunMirrors(c: M.Crypto, s: Cli, cmds: seq<Command>)
    requires Inv(s) && FreshIdentities(c, s, cmds)
    ensures Inv(Run(c, s, cmds)) && Run(c, s, cmds).self == s.self
  {
    if |cmds| > 0 {
      var n := |cmds| - 1;
      assert forall k :: 0 <= k <= n ==> cmds[..n][..k] == cmds[..k];
      RunMirrors(c, s, cmds[..n]);
      StepKeepsInv(c, Run(c, s, cmds[..n]), cmds[n]);
    }
  }

  /** A registered name keeps its identity for good. */
  lemma {:induction false} RegisteredForever(c: M.Crypto, s: Cli, cmds: seq<Command>, name: string)
    requires name in s.registry
    ensures name in Run(c, s, cmds).registry && Run(c, s, cmds).registry[name] == s.registry[name]
  {
    if |cmds| > 0 {
      RegisteredForever(c, s, cmds[..|cmds| - 1], name);
    }
  }

  /** In numbers: the manifest lists as many names as there are active signers; the contract's counter may be larger. */
  lemma ManifestCountsActive(registry: map<string, Identity>, m: Manifest, s: M.State)
    requires Injective(registry) && Mirrors(registry, m, s) && M.Inv(s)
    ensures |m.signers| == |M.Active(s)| <= s.signerCount
  {
    DistinctCount(registry, m.signers);
  }

  lemma {:induction false} DistinctCount(registry: map<string, Identity>, names: seq<string>)
    requires Injective(registry) && Distinct(names) && forall n :: n in names ==> n in registry
    ensures |Addresses(registry, names)| == |names|
  {
    if |names| == 0 {
      assert Addresses(registry, names) == {};
    } else {
      var front, last := names[..|names| - 1], names[|names| - 1];
      assert names == front + [last];
      DistinctCount(registry, front);
      assert registry[last].address !in Addresses(registry, front);
      assert Addresses(registry, names) == Addresses(registry, front) + {registry[last].address};
    }
  }

  // ---------- At most once ----------

  lemma StepKeepsSettled(c: M.Crypto, s: Cli, cmd: Command, hash: Field)
    requires Settled(s.ledger, hash)
    ensures Settled(Step(c, s, cmd).ledger, hash)
  {
    match cmd
    case CreateSigner(_, _) =>
    case SignProposal(who, h, bytes) =>
      if who in s.registry {
        ProposalLedger.StepKeepsSettled(c, s.ledger, DoSign(Signed(h, who, s.registry[who].address, bytes)), hash);
      }
    case Execute(_, _, h) =>
      ProposalLedger.StepKeepsSettled(c, s.ledger, DoCleanup(h), hash);
    case _ =>
      var found := FindManifest(s.manifests, s.self);
      if found.Some? {
        ProposeStepKeepsSettled(c, s, found.value, cmd, hash);
      }
  }

  lemma ProposeStepKeepsSettled(c: M.Crypto, s: Cli, m: Manifest, cmd: Command, hash: Field)
    requires Settled(s.ledger, hash)
    ensures Settled(ProposeStep(c, s, m, cmd).ledger, hash)
  {
    forall data: Data
      ensures Settled(Create(s.ledger, c, data, m.threshold), hash)
    {
      ProposalLedger.StepKeepsSettled(c, s.ledger, DoCreate(data, m.threshold), hash);
    }
  }

  lemma RunUnfolds(c: M.Crypto, s: Cli, cmds: seq<Command>, k: nat)
    requires k < |cmds|
    ensures Run(c, s, cmds[..k + 1]) == Step(c, Run(c, s, cmds[..k]), cmds[k])
  {
    assert cmds[..k + 1][..k] == cmds[..k];
  }

  lemma {:induction false} RunKeepsSettled(c: M.Crypto, s: Cli, cmds: seq<Command>, hash: Field)
    requires Settled(s.ledger, hash)
    ensures Settled(Run(c, s, cmds).ledger, hash)
  {
    if |cmds| > 0 {
      RunKeepsSettled(c, s, cmds[..|cmds| - 1], hash);
      StepKeepsSettled(c, Run(c, s, cmds[..|cmds| - 1]), cmds[|cmds| - 1], hash);
    }
  }

  /** A run may be cut anywhere. */
  lemma {:induction false} RunSplits(c: M.Crypto, s: Cli, a: seq<Command>, b: seq<Command>)
    ensures Run(c, s, a + b) == Run(c, Run(c, s, a), b)
  {
    if |b| == 0 {
      assert a + b == a;
    } else {
      var front, last := b[..|b| - 1], b[|b| - 1];
      RunSplits(c, s, a, front);
      AppendFront(a, b);
    }
  }

  lemma AppendFront(a: seq<Command>, b: seq<Command>)
    requires |b| > 0
    ensures (a + b)[..|a + b| - 1] == a + b[..|b| - 1] && (a + b)[|a + b| - 1] == b[|b| - 1]
  {
  }

  lemma SettledLater(c: M.Crypto, s: Cli, cmds: seq<Command>, k: nat, j: nat, hash: Field)
    requires k <= j <= |cmds| && Settled(Run(c, s, cmds[..k]).ledger, hash)
    ensures Settled(Run(c, s, cmds[..j]).ledger, hash)
  {
    var t, rest := Run(c, s, cmds[..k]), cmds[k..j];
    RunKeepsSettled(c, t, rest, hash);
    assert Run(c, s, cmds[..j]) == Run(c, t, rest) by {
      assert cmds[..j] == cmds[..k] + rest;
      RunSplits(c, s, cmds[..k], rest);
    }
  }

  /** Command `k` executed its proposal. */
  predicate ExecutedAt(c: M.Crypto, s: Cli, cmds: seq<Command>, k: nat)
    requires k < |cmds|
  {
    var t := Run(c, s, cmds[..k]);
    var found := FindManifest(t.manifests, t.self);
    found.Some? && cmds[k].Execute? && ExecutionAccepted(c, t, found.value, cmds[k].who, cmds[k].kind, cmds[k].hash)
  }

  lemma ExecutionSettles(c: M.Crypto, s: Cli, cmds: seq<Command>, k: nat)
    requires k < |cmds| && ExecutedAt(c, s, cmds, k)
    ensures Settled(Run(c, s, cmds[..k + 1]).ledger, cmds[k].hash)
  {
    var t := Run(c, s, cmds[..k]);
    RunUnfolds(c, s, cmds, k);
    ExecuteStep(c, t, FindManifest(t.manifests, t.self).value, cmds[k].who, cmds[k].kind, cmds[k].hash);
    CleanupSettles(t.ledger, cmds[k].hash);
  }

  lemma SettledBlocksExecution(c: M.Crypto, s: Cli, cmds: seq<Command>, k: nat)
    requires k < |cmds| && cmds[k].Execute? && Settled(Run(c, s, cmds[..k]).ledger, cmds[k].hash)
    ensures !ExecutedAt(c, s, cmds, k)
  {
  }

  /**
   Through the CLI every message hash is executed at most once. For removals and threshold changes
   this is the ledger's doing alone: the contract does not record their hashes.
   */
  lemma ExecutedAtMostOnce(c: M.Crypto, s: Cli, cmds: seq<Command>, i: nat, j: nat)
    requires i < j < |cmds| && ExecutedAt(c, s, cmds, i)
    requires cmds[j].Execute? && cmds[j].hash == cmds[i].hash
    ensures !ExecutedAt(c, s, cmds, j)
  {
    ExecutionSettles(c, s, cmds, i);
    SettledLater(c, s, cmds, i + 1, j, cmds[i].hash);
    SettledBlocksExecution(c, s, cmds, j);
  }
}
