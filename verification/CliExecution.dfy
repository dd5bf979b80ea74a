/** What an execute command achieves: which signatures reach the contract, and when it accepts them. */
module CliExecution {
  import opened Words
  import opened ProposalLedger
  import opened CliMirror
  import opened CliCreation
  import M = MultisigSpec
  import opened IntentPayload
  import opened MultisigCalls

  // ---------- The packed array ----------

  /** The number of signatures that fit the array. */
  function Kept(signatures: seq<Signed>): nat {
    if |signatures| < M.MAX_SIGNERS then |signatures| else M.MAX_SIGNERS
  }

  /** All signatures are for one hash, by different signers, with addresses as registered. */
  ghost predicate WellKept(registry: map<string, Identity>, signatures: seq<Signed>) {
    && (forall i, j :: 0 <= i < j < |signatures| ==> signatures[i].name != signatures[j].name)
    && forall i :: 0 <= i < |signatures| ==>
         signatures[i].name in registry && signatures[i].address == registry[signatures[i].name].address
  }

  lemma PackedOwners(registry: map<string, Identity>, signatures: seq<Signed>)
    requires Injective(registry) && WellKept(registry, signatures)
    ensures M.DistinctOwners(Packed(signatures))
    ensures |M.Owners(Packed(signatures))| == Kept(signatures)
  {
    var slots := Packed(signatures);
    var kept := signatures[..Kept(signatures)];
    var names := seq(|kept|, i requires 0 <= i < |kept| => kept[i].name);
    DistinctCount(registry, names);
    forall a | a in M.Owners(slots)
      ensures a in Addresses(registry, names)
    {
      var i :| 0 <= i < |slots| && slots[i].owner != 0 && slots[i].owner == a;
      assert names[i] == signatures[i].name;
    }
    forall a | a in Addresses(registry, names)
      ensures a in M.Owners(slots)
    {
      var n :| n in names && n in registry && registry[n].address == a;
      var i :| 0 <= i < |names| && names[i] == n;
      assert slots[i].owner == a;
    }
    assert M.Owners(slots) == Addresses(registry, names);
  }

  /**
   When the contract takes what the CLI packs: exactly if every kept signature is by an active
   signer and verifies, and the kept ones reach the quorum. No duplicate can get in the way, but one
   signature by an outsider can.
   */
  lemma PackedApproves(c: M.Crypto, s: M.State, hash: Field, registry: map<string, Identity>, signatures: seq<Signed>)
    requires Injective(registry) && WellKept(registry, signatures)
    ensures M.Approves(c, s, hash, Packed(signatures)) <==>
      && Kept(signatures) >= M.Quorum(s)
      && forall i :: 0 <= i < Kept(signatures) ==>
           M.SlotVerifies(c, s, hash, M.Signature(signatures[i].address, signatures[i].bytes))
  {
    PackedOwners(registry, signatures);
    var slots := Packed(signatures);
    assert forall i :: 0 <= i < Kept(signatures) ==>
      slots[i] == M.Signature(signatures[i].address, signatures[i].bytes) && slots[i].owner != 0;
    assert forall i :: Kept(signatures) <= i < M.MAX_SIGNERS ==> slots[i].owner == 0;
  }

  // ---------- Execution ----------

  /** The CLI's own files are always well kept: what it packs never holds an owner twice. */
  lemma OnFileIsWellKept(s: Cli, hash: Field)
    requires Inv(s)
    ensures
      var kept := SignaturesFor(s.ledger.signatures, hash);
      WellKept(s.registry, kept) && M.DistinctOwners(Packed(kept)) && |M.Owners(Packed(kept))| == Kept(kept)
  {
    var kept := SignaturesFor(s.ledger.signatures, hash);
    FilterKeepsUnique(s.ledger.signatures, hash);
    forall i | 0 <= i < |kept|
      ensures kept[i].hash == hash
      ensures kept[i].name in s.registry && kept[i].address == s.registry[kept[i].name].address
    {
      assert kept[i] in kept;
      var k :| 0 <= k < |s.ledger.signatures| && s.ledger.signatures[k] == kept[i];
    }
    PackedOwners(s.registry, kept);
  }

  /** The signatures on file for a hash that fit the array are by active signers, verify, and are enough. */
  ghost predicate EnoughOnFile(c: M.Crypto, s: Cli, hash: Field) {
    var signatures := SignaturesFor(s.ledger.signatures, hash);
    && Kept(signatures) >= M.Quorum(s.contract)
    && forall i :: 0 <= i < Kept(signatures) ==>
         M.SlotVerifies(c, s.contract, hash, M.Signature(signatures[i].address, signatures[i].bytes))
  }

  /** A command that has passed the CLI's gates is accepted by the contract exactly under these conditions. */
  lemma ExecutionAcceptedIff(c: M.Crypto, s: Cli, who: string, kind: Kind, hash: Field)
    requires Inv(s) && Executable(s.ledger, FindManifest(s.manifests, s.self).value, who, kind, hash)
    ensures ExecutionAccepted(c, s, FindManifest(s.manifests, s.self).value, who, kind, hash) <==>
      && s.account == s.contract.master
      && hash !in s.contract.executed
      && c.poseidon2(M.Preimage(CallFor(s, hash).op)) == hash
      && M.Applicable(s.contract, CallFor(s, hash).op)
      && EnoughOnFile(c, s, hash)
  {
    OnFileIsWellKept(s, hash);
    PackedApproves(c, s.contract, hash, s.registry, SignaturesFor(s.ledger.signatures, hash));
  }

  // ---------- Hashes on file ----------

  /** Every proposal is filed under the hash of its data. */
  ghost predicate Hashed(c: M.Crypto, l: Ledger) {
    forall i :: 0 <= i < |l.proposals| ==> l.proposals[i].hash == MessageHash(c, l.proposals[i].data)
  }

  lemma StepKeepsHashed(c: M.Crypto, s: Cli, cmd: Command)
    requires Hashed(c, s.ledger)
    ensures Hashed(c, CliMirror.Step(c, s, cmd).ledger)
  {
  }

  lemma {:induction false} RunKeepsHashed(c: M.Crypto, s: Cli, cmds: seq<Command>)
    requires Hashed(c, s.ledger)
    ensures Hashed(c, CliMirror.Run(c, s, cmds).ledger)
  {
    if |cmds| > 0 {
      RunKeepsHashed(c, s, cmds[..|cmds| - 1]);
      StepKeepsHashed(c, CliMirror.Run(c, s, cmds[..|cmds| - 1]), cmds[|cmds| - 1]);
    }
  }

  /** So the call built for a hash on file has it as the hash of its preimage. */
  lemma PreimageIsRight(c: M.Crypto, s: Cli, hash: Field)
    requires Hashed(c, s.ledger) && IsPending(s.ledger, hash)
    ensures c.poseidon2(M.Preimage(CallFor(s, hash).op)) == hash
  {
    assert c.poseidon2(M.Preimage(CallFor(s, hash).op)) == MessageHash(c, Find(s.ledger.proposals, hash).value.data);
  }

  /**
   From creation on, at any point of any run, a command is accepted exactly if it passes the CLI's
   gates, no addition or intent has spent the hash, the call applies to the contract's state, and the
   first eight signatures on file are all valid and reach the quorum. Sender and preimage are always
   right, and no signer is counted twice.
   */
  lemma AcceptedSinceCreationIff(c: M.Crypto, s: Cli, creator: string, names: seq<string>, threshold: int,
                                 cmds: seq<Command>, who: string, kind: Kind, hash: Field)
    requires JustCreated(s, creator, names, threshold) && Hashed(c, s.ledger) && FreshIdentities(c, s, cmds)
    ensures
      var t := CliMirror.Run(c, s, cmds);
      && FindManifest(t.manifests, t.self).Some?
      && var m := FindManifest(t.manifests, t.self).value;
         ExecutionAccepted(c, t, m, who, kind, hash) <==>
           && Executable(t.ledger, m, who, kind, hash)
           && hash !in t.contract.executed
           && M.Applicable(t.contract, CallFor(t, hash).op)
           && EnoughOnFile(c, t, hash)
  {
    var t := CliMirror.Run(c, s, cmds);
    MirroredSinceCreation(c, s, creator, names, threshold, cmds);
    RunKeepsHashed(c, s, cmds);
    if Executable(t.ledger, FindManifest(t.manifests, t.self).value, who, kind, hash) {
      PreimageIsRight(c, t, hash);
      ExecutionAcceptedIff(c, t, who, kind, hash);
    }
  }

  // ---------- What the commands leave ----------

  /** Registering stores a new name's identity; signing appends the signature under the signer's registered address. */
  lemma RegisteringAndSigning(c: M.Crypto, s: Cli, name: string, identity: Identity, hash: Field, bytes: seq<Byte>)
    ensures
      var t := CliMirror.Step(c, s, CreateSigner(name, identity));
      if name in s.registry then t == s
      else t == s.(registry := t.registry) && t.registry == s.registry[name := identity]
    ensures
      var t, found := CliMirror.Step(c, s, SignProposal(name, hash, bytes)), Find(s.ledger.proposals, hash);
      if name in s.registry && found.Some? && found.value.status.Pending?
         && (forall x :: x in s.ledger.signatures && x.hash == hash ==> x.name != name)
      then
        && t == s.(ledger := t.ledger) && t.ledger.proposals == s.ledger.proposals
        && t.ledger.signatures == s.ledger.signatures + [Signed(hash, name, s.registry[name].address, bytes)]
      else t == s
  {
  }

  /** The proposing commands: which pass, and what they file. */
  lemma ProposalIsFiled(c: M.Crypto, s: Cli, m: Manifest, cmd: Command)
    requires FindManifest(s.manifests, s.self) == Some(m)
    ensures
      var t := CliMirror.Step(c, s, cmd);
      match cmd
      case ProposeAdd(who, name, deadline) =>
        if who in m.signers && name in s.registry
        then
          var id := s.registry[name];
          Filed(s, t, c.poseidon2([id.address, id.pkX, id.pkY, deadline]),
                AddSignerData(name, id.address, id.pkX, id.pkY, deadline), m.threshold)
        else t == s
      case ProposeRemove(who, name, deadline) =>
        if who in m.signers && name in m.signers && name in s.registry && m.threshold < |m.signers|
        then
          var id := s.registry[name];
          Filed(s, t, c.poseidon2([id.address, deadline]), RemoveSignerData(name, id.address, deadline), m.threshold)
        else t == s
      case ProposeThreshold(who, n, deadline) =>
        if who in m.signers && 1 <= n <= |m.signers| && n != m.threshold
        then Filed(s, t, c.poseidon2([n, deadline]), ChangeThresholdData(n, deadline), m.threshold)
        else t == s
      case ProposeIntent(who, i, deadline) =>
        if who in m.signers
        then
          Filed(s, t, c.poseidon2([i.targetChain, i.targetContract, i.intentType, i.amount, i.recipient, deadline]),
                CrossChainIntentData(i, deadline), m.threshold)
        else t == s
      case _ => true
  {
  }

  /** From `s` to `t` one pending proposal was appended, and nothing else happened. */
  ghost predicate Filed(s: Cli, t: Cli, hash: Field, data: Data, threshold: nat) {
    && t.ledger.proposals == s.ledger.proposals + [Proposal(hash, data, threshold, Pending)]
    && t == s.(ledger := t.ledger) && t.ledger.signatures == s.ledger.signatures
  }

  /** The gates in front of the contract call. */
  lemma ExecutableIff(l: Ledger, m: Manifest, who: string, kind: Kind, hash: Field)
    ensures Executable(l, m, who, kind, hash) <==>
      && Find(l.proposals, hash).Some?
      && var p := Find(l.proposals, hash).value;
      && p.status == Pending
      && p.threshold <= |SignaturesFor(l.signatures, hash)|
      && who in m.signers
      && match kind
         case AddKind => p.data.AddSignerData?
         case RemoveKind => p.data.RemoveSignerData?
         case ThresholdKind => p.data.ChangeThresholdData?
         case IntentKind => p.data.CrossChainIntentData?
  {
  }

  /**
   What an accepted execution brings about, on both sides: the contract does what the proposal says,
   the manifest follows, the proposal is marked and its signatures are dropped.
   */
  lemma ExecutionLeaves(c: M.Crypto, s: Cli, m: Manifest, who: string, kind: Kind, hash: Field)
    requires Inv(s) && FindManifest(s.manifests, s.self) == Some(m)
    requires ExecutionAccepted(c, s, m, who, kind, hash)
    ensures
      var t := CliMirror.Step(c, s, Execute(who, kind, hash));
      && Settled(t.ledger, hash) && t.registry == s.registry && t.self == s.self && t.account == s.account
      && (forall b :: b != s.self ==> FindManifest(t.manifests, b) == FindManifest(s.manifests, b))
      && FindManifest(t.manifests, t.self).Some?
      && var after := FindManifest(t.manifests, t.self).value;
      && after.address == m.address
      && match Find(s.ledger.proposals, hash).value.data
         case AddSignerData(name, address, x, y, _) =>
           && HasNotes(t.contract, address, 1, x, y) && OthersKept(s.contract, t.contract, address)
           && after.signers == m.signers + [name] && after.threshold == m.threshold
         case RemoveSignerData(name, address, _) =>
           && HasNotes(t.contract, address, 0, 0, 0) && OthersKept(s.contract, t.contract, address)
           && (forall n :: n in after.signers <==> n in m.signers && n != name) && after.threshold == m.threshold
         case ChangeThresholdData(n, _) =>
           t.contract.threshold == n && after.signers == m.signers && after.threshold == n
         case CrossChainIntentData(intent, _) =>
           && after == m && |t.contract.published| == |s.contract.published| + 1
           && var p := t.contract.published[|s.contract.published|];
              p.wormhole == WORMHOLE_ADDRESS && p.sender == s.contract.master && p.rows == Encode(intent)
  {
    var data := Find(s.ledger.proposals, hash).value.data;
    ExecuteStep(c, s, m, who, kind, hash);
    CallLeaves(c, s.contract, CallFor(s, hash));
    forall b
      ensures FindManifest(Save(s.manifests, Updated(m, data)), b) ==
              if b == s.self then Some(Updated(m, data)) else FindManifest(s.manifests, b)
    {
      SaveThenFind(s.manifests, Updated(m, data), b);
    }
    CleanupSettles(s.ledger, hash);
    if data.RemoveSignerData? {
      WithoutMeaning(m.signers, data.name);
    }
  }
}
