/** The execute commands as the CLI runs them: gates, packing, the contract call, then the local files. */
module CliCommands {
  import opened Words
  import opened ProposalLedger
  import opened CliMirror
  import opened CliCreation
  import M = MultisigSpec
  import opened MultisigContract

  class CliSession {
    const ledger: ProposalManager
    const account: MultisigAccount
    const self: Address
    const sender: Address
    var registry: map<string, Identity>
    var manifests: seq<Manifest>

    ghost function Abs(): Cli
      reads this, ledger, account
    {
      Cli(registry, manifests, ledger.Abs(), self, sender, account.Abs())
    }

    constructor (ledger: ProposalManager, account: MultisigAccount, self: Address, sender: Address,
                 registry: map<string, Identity>, manifests: seq<Manifest>)
      ensures this.ledger == ledger && this.account == account
      ensures this.self == self && this.sender == sender
      ensures this.registry == registry && this.manifests == manifests
    {
      this.ledger, this.account, this.self, this.sender := ledger, account, self, sender;
      this.registry, this.manifests := registry, manifests;
    }

    /** The registry accepts a name once. */
    method CreateSigner(name: string, identity: Identity) returns (ok: bool)
      modifies this`registry
      ensures ok <==> name !in old(registry)
      ensures Abs() == CliMirror.Step(account.crypto, old(Abs()), Command.CreateSigner(name, identity))
    {
      if name in registry {
        return false;
      }
      registry := registry[name := identity];
      return true;
    }

    /** Signing needs a registered signer, a pending proposal, and no earlier signature by the same signer. */
    method SignProposal(who: string, hash: Field, bytes: seq<Byte>) returns (ok: bool)
      modifies ledger
      ensures ok <==> who in registry && CanSign(old(ledger.Abs()), hash, who)
      ensures Abs() == CliMirror.Step(account.crypto, old(Abs()), Command.SignProposal(who, hash, bytes))
    {
      if who !in registry {
        return false;
      }
      ok := ledger.SignProposal(Signed(hash, who, registry[who].address, bytes));
    }

    method SaveMultisig(m: Manifest)
      modifies this`manifests
      ensures manifests == Save(old(manifests), m) && registry == old(registry)
    {
      var existingIndex := ManifestIndex(manifests, m.address);
      if existingIndex < |manifests| {
        manifests := manifests[existingIndex := m];
      } else {
        manifests := manifests + [m];
      }
    }

    /** The create command's own checks, then the deployment from the shared account. */
    static method DeployFor(crypto: M.Crypto, sender: Address, registry: map<string, Identity>,
                            who: string, names: seq<string>, threshold: int) returns (account: MultisigAccount?)
      ensures account != null <==> CanCreate(registry, who, names, threshold)
      ensures account != null ==>
        && fresh(account) && account.Valid() && account.crypto == crypto
        && DeployedBy(account.Abs(), sender, registry, names, threshold)
    {
      if threshold < 1 || threshold > |names| || |names| > M.MAX_SIGNERS {
        return null;
      }
      if (exists i :: 0 <= i < |names| && names[i] !in registry) || who !in names {
        return null;
      }
      account := MultisigAccount.Deploy(crypto, sender, Slots(registry, names), threshold,
                                        XSlots(registry, names), YSlots(registry, names));
    }

    /**
     The create command: deployment, and the new entry in the manifest file. On files in order, it
     leaves the state from which every later command keeps the mirror.
     */
    static method CreateMultisig(crypto: M.Crypto, ledger: ProposalManager, self: Address, sender: Address,
                                 registry: map<string, Identity>, manifests: seq<Manifest>,
                                 who: string, names: seq<string>, threshold: int) returns (session: CliSession?)
      ensures session != null <==> CanCreate(registry, who, names, threshold)
      ensures session != null ==> fresh(session) && fresh(session.account) && session.ledger == ledger
      ensures session != null ==> session.account.Valid() && session.account.crypto == crypto
      ensures session != null ==> DeployedBy(session.account.Abs(), sender, registry, names, threshold)
      ensures session != null ==>
        && session.self == self && session.sender == sender && session.registry == registry
        && session.manifests == Save(manifests, Manifest(self, names, threshold))
      ensures session != null && SoundFiles(registry, ledger.Abs()) ==>
        JustCreated(session.Abs(), who, names, threshold)
    {
      var account := DeployFor(crypto, sender, registry, who, names, threshold);
      if account == null {
        return null;
      }
      ghost var deployed := account.Abs();
      session := new CliSession(ledger, account, self, sender, registry, manifests);
      session.SaveMultisig(Manifest(self, names, threshold));
      assert account.Abs() == deployed;
      if SoundFiles(registry, ledger.Abs()) {
        CreationOnSoundFiles(session.Abs(), manifests, who, names, threshold);
      }
    }

    /** One of the four contract calls, sent from the shared account. */
    method Submit(hash: Field, data: Data, slots: seq<M.Signature>) returns (accepted: bool)
      requires account.Valid() && |slots| == M.MAX_SIGNERS
      modifies account
      ensures account.Valid()
      ensures accepted == M.Accepts(account.crypto, old(account.Abs()), M.Call(sender, ToOp(hash, data, slots)))
      ensures account.Abs() == M.Step(account.crypto, old(account.Abs()), M.Call(sender, ToOp(hash, data, slots)))
    {
      match data
      case AddSignerData(_, address, x, y, deadline) =>
        accepted := account.AddSigner(sender, hash, address, x, y, deadline, slots);
      case RemoveSignerData(_, address, deadline) =>
        accepted := account.RemoveSigner(sender, hash, address, deadline, slots);
      case ChangeThresholdData(t, deadline) =>
        accepted := account.ChangeThreshold(sender, hash, t, deadline, slots);
      case CrossChainIntentData(intent, deadline) =>
        accepted := account.ExecuteCrossChainIntent(sender, hash, intent, WORMHOLE_ADDRESS, deadline, slots);
    }

    /** The gates of an execute command; `None` means that it stops with an error. */
    method CheckGates(m: Manifest, who: string, kind: Kind, hash: Field) returns (data: Option<Data>)
      ensures data.Some? <==> Executable(ledger.Abs(), m, who, kind, hash)
      ensures data.Some? ==> data.value == Find(ledger.proposals, hash).value.data
    {
      var proposal := Find(ledger.proposals, hash);
      if proposal.None? {
        return None;
      }
      if !proposal.value.status.Pending? || KindOf(proposal.value.data) != kind {
        return None;
      }
      if |SignaturesFor(ledger.signatures, hash)| < proposal.value.threshold {
        return None;
      }
      if who !in m.signers {
        return None;
      }
      return Some(proposal.value.data);
    }

    method Execute(who: string, kind: Kind, hash: Field) returns (ok: bool)
      requires account.Valid()
      modifies this, ledger, account
      ensures account.Valid()
      ensures
        var found := FindManifest(old(manifests), self);
        ok <==> found.Some? && ExecutionAccepted(account.crypto, old(Abs()), found.value, who, kind, hash)
      ensures Abs() == CliMirror.Step(account.crypto, old(Abs()), Command.Execute(who, kind, hash))
    {
      var found := FindManifest(manifests, self);
      if found.None? {
        return false;
      }
      var m := found.value;
      ghost var before := Abs();
      ExecuteStep(account.crypto, before, m, who, kind, hash);
      var data := CheckGates(m, who, kind, hash);
      if data.None? {
        return false;
      }
      var slots := PackSignatures(SignaturesFor(ledger.signatures, hash));
      ok := Submit(hash, data.value, slots);
      if !ok {
        return false;
      }
      RecordExecution(m, data.value, hash);
      assert Abs() == CliMirror.Executed(before, m, hash);
    }

    /** After an accepted call: the manifest update, which an intent does not need, and the cleanup. */
    method RecordExecution(m: Manifest, data: Data, hash: Field)
      requires FindManifest(manifests, self) == Some(m)
      modifies this`manifests, ledger
      ensures manifests == Save(old(manifests), Updated(m, data)) && registry == old(registry)
      ensures ledger.Abs() == Cleanup(old(ledger.Abs()), hash)
    {
      if data.CrossChainIntentData? {
        assert Save(manifests, m) == manifests;
      } else {
        SaveMultisig(Updated(m, data));
      }
      ledger.CleanupExecutedProposal(hash);
    }
  }
}
