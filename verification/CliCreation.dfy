/** How `create-multisig` deploys the contract, and that the local files start out as its mirror. */
module CliCreation {
  import opened Words
  import opened ProposalLedger
  import opened CliMirror
  import M = MultisigSpec
  import opened MultisigCalls

  /** Every name is registered, and eight slots suffice. */
  predicate Listable(registry: map<string, Identity>, names: seq<string>) {
    |names| <= M.MAX_SIGNERS && forall n :: n in names ==> n in registry
  }

  /** The eight address slots that `createMultisig` deploys with. */
  function Slots(registry: map<string, Identity>, names: seq<string>): seq<Address>
    requires Listable(registry, names)
  {
    seq(M.MAX_SIGNERS, i requires 0 <= i => if i < |names| then registry[names[i]].address else 0)
  }

  function XSlots(registry: map<string, Identity>, names: seq<string>): seq<Field>
    requires Listable(registry, names)
  {
    seq(M.MAX_SIGNERS, i requires 0 <= i => if i < |names| then registry[names[i]].pkX else 0)
  }

  function YSlots(registry: map<string, Identity>, names: seq<string>): seq<Field>
    requires Listable(registry, names)
  {
    seq(M.MAX_SIGNERS, i requires 0 <= i => if i < |names| then registry[names[i]].pkY else 0)
  }

  /** The deployment is accepted: the command's own checks, then those of the contract. */
  predicate CanCreate(registry: map<string, Identity>, who: string, names: seq<string>, threshold: int) {
    && 1 <= threshold <= |names|
    && Listable(registry, names)
    && who in names
    && M.ValidInitialization(Slots(registry, names), threshold, XSlots(registry, names), YSlots(registry, names))
  }

  /** The contract is as `createMultisig` deployed it from `account`. */
  ghost predicate DeployedBy(contract: M.State, account: Address, registry: map<string, Identity>,
                             names: seq<string>, threshold: int)
    requires 0 <= threshold <= M.MAX_SIGNERS && Listable(registry, names)
    requires M.ValidInitialization(Slots(registry, names), threshold, XSlots(registry, names), YSlots(registry, names))
  {
    M.IsInitial(contract, account, Slots(registry, names), threshold, XSlots(registry, names), YSlots(registry, names))
  }

  /** What a creation needs to find on file: distinct addresses, and a ledger that agrees with the registry. */
  ghost predicate SoundFiles(registry: map<string, Identity>, ledger: Ledger) {
    Injective(registry) && Consistent(registry, ledger) && UniqueSigners(ledger.signatures)
  }

  /** `create-multisig` has just run, on files in order: the contract is new and its manifest is saved. */
  ghost predicate JustCreated(s: Cli, who: string, names: seq<string>, threshold: int) {
    && SoundFiles(s.registry, s.ledger)
    && CanCreate(s.registry, who, names, threshold)
    && DeployedBy(s.contract, s.account, s.registry, names, threshold)
    && FindManifest(s.manifests, s.self) == Some(Manifest(s.self, names, threshold))
  }

  lemma CreationOnSoundFiles(s: Cli, manifests: seq<Manifest>, who: string, names: seq<string>, threshold: int)
    requires SoundFiles(s.registry, s.ledger) && CanCreate(s.registry, who, names, threshold)
    requires s.manifests == Save(manifests, Manifest(s.self, names, threshold))
    requires DeployedBy(s.contract, s.account, s.registry, names, threshold)
    ensures JustCreated(s, who, names, threshold)
  {
    SaveThenFind(manifests, Manifest(s.self, names, threshold), s.self);
  }

  lemma SlotsMeaning(registry: map<string, Identity>, names: seq<string>)
    requires Injective(registry) && Listable(registry, names)
    ensures M.Nonzero(Slots(registry, names)) == Addresses(registry, names)
    ensures M.DistinctNonzero(Slots(registry, names)) ==> Distinct(names)
  {
    var slots := Slots(registry, names);
    assert forall i :: 0 <= i < |names| ==> slots[i] == registry[names[i]].address;
    forall n | n in names
      ensures registry[n].address in M.Nonzero(slots)
    {
      var i :| 0 <= i < |names| && names[i] == n;
      assert slots[i] == registry[n].address;
    }
  }

  /**
   A deployment that the contract accepts starts out mirrored, with every invariant of the local
   files: in particular the contract rejects a name listed twice.
   */
  lemma CreationMirrors(s: Cli, who: string, names: seq<string>, threshold: int)
    requires JustCreated(s, who, names, threshold)
    ensures Inv(s) && s.contract.master == s.account
  {
    M.InitialSatisfiesInv(s.contract, s.account, Slots(s.registry, names), threshold,
                          XSlots(s.registry, names), YSlots(s.registry, names));
    SlotsMeaning(s.registry, names);
  }

  lemma StepKeepsMaster(c: M.Crypto, s: Cli, cmd: Command)
    ensures
      var t := CliMirror.Step(c, s, cmd);
      t.contract.master == s.contract.master && t.account == s.account && t.self == s.self
  {
  }

  lemma {:induction false} RunKeepsMaster(c: M.Crypto, s: Cli, cmds: seq<Command>)
    ensures
      var t := CliMirror.Run(c, s, cmds);
      t.contract.master == s.contract.master && t.account == s.account && t.self == s.self
  {
    if |cmds| > 0 {
      RunKeepsMaster(c, s, cmds[..|cmds| - 1]);
      StepKeepsMaster(c, CliMirror.Run(c, s, cmds[..|cmds| - 1]), cmds[|cmds| - 1]);
    }
  }

  /**
   From creation on, over any run of commands: the manifest lists exactly the active signers, once
   each, with the contract's threshold, and the shared account stays the contract's master.
   */
  lemma MirroredSinceCreation(c: M.Crypto, s: Cli, who: string, names: seq<string>, threshold: int, cmds: seq<Command>)
    requires JustCreated(s, who, names, threshold) && FreshIdentities(c, s, cmds)
    ensures
      var t := CliMirror.Run(c, s, cmds);
      && Inv(t) && t.self == s.self && t.contract.master == t.account
      && var m := FindManifest(t.manifests, t.self).value;
         Mirrors(t.registry, m, t.contract) && |m.signers| == |M.Active(t.contract)| <= t.contract.signerCount
  {
    var t := CliMirror.Run(c, s, cmds);
    CreationMirrors(s, who, names, threshold);
    RunMirrors(c, s, cmds);
    RunKeepsMaster(c, s, cmds);
    ManifestCountsActive(t.registry, FindManifest(t.manifests, t.self).value, t.contract);
  }

  // ---------- Which creations pass, and what they deploy ----------

  /**
   On files with distinct addresses a creation passes iff the threshold is between one and the number
   of names, at most eight names are given, none twice, all registered with nonzero keys, and the
   current signer is one of them.
   */
  lemma CanCreateIff(registry: map<string, Identity>, who: string, names: seq<string>, threshold: int)
    requires Injective(registry)
    ensures CanCreate(registry, who, names, threshold) <==>
      && 1 <= threshold <= |names| <= 8 && who in names
      && (forall i, j :: 0 <= i < j < |names| ==> names[i] != names[j])
      && (forall n :: n in names ==> n in registry && registry[n].pkX != 0 && registry[n].pkY != 0)
  {
    if 1 <= threshold <= |names| <= 8 && Listable(registry, names) {
      var slots := Slots(registry, names);
      SlotByName(registry, names);
      DeploymentAcceptedIff(slots, threshold, XSlots(registry, names), YSlots(registry, names));
      if Distinct(names) {
        ListedIsAllNames(registry, names);
      } else {
        var i, j :| 0 <= i < j < |names| && names[i] == names[j];
        assert slots[i] == slots[j];
      }
    }
  }

  lemma SlotByName(registry: map<string, Identity>, names: seq<string>)
    requires Injective(registry) && Listable(registry, names)
    ensures
      var slots, xs, ys := Slots(registry, names), XSlots(registry, names), YSlots(registry, names);
      && (forall i :: 0 <= i < |names| ==>
            && slots[i] == registry[names[i]].address != 0
            && xs[i] == registry[names[i]].pkX && ys[i] == registry[names[i]].pkY)
      && (forall i :: |names| <= i < 8 ==> slots[i] == 0 && xs[i] == 0 && ys[i] == 0)
      && (forall i, j :: 0 <= i < j < |names| ==> (slots[i] == slots[j] <==> names[i] == names[j]))
  {
  }

  lemma ListedIsAllNames(registry: map<string, Identity>, names: seq<string>)
    requires Injective(registry) && Listable(registry, names) && Distinct(names)
    ensures |ListedSlots(Slots(registry, names))| == |names|
  {
    SlotByName(registry, names);
    SlotsMeaning(registry, names);
    SignerPerSlot(Slots(registry, names));
    DistinctCount(registry, names);
  }

  /** A fresh multisig: each name's own key is stored under its address, and the shared account is the master. */
  lemma CreationDeploys(s: Cli, who: string, names: seq<string>, threshold: int)
    requires JustCreated(s, who, names, threshold)
    ensures s.contract.master == s.account && s.contract.threshold == threshold
    ensures s.contract.signerCount == |names| && s.contract.executed == {} && s.contract.published == []
    ensures forall n :: n in names ==>
      HasNotes(s.contract, s.registry[n].address, 1, s.registry[n].pkX, s.registry[n].pkY)
  {
    DeploymentLeaves(s.contract, s.account, Slots(s.registry, names), threshold,
                     XSlots(s.registry, names), YSlots(s.registry, names));
    SlotByName(s.registry, names);
    SlotsMeaning(s.registry, names);
    ListedIsAllNames(s.registry, names);
    forall n | n in names
      ensures HasNotes(s.contract, s.registry[n].address, 1, s.registry[n].pkX, s.registry[n].pkY)
    {
      var i :| 0 <= i < |names| && names[i] == n;
      assert Slots(s.registry, names)[i] != 0;
    }
  }
}
