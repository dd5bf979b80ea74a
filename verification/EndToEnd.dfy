/**
 Both ends together: the multisig on Aztec, the intent vault on Arbitrum, and everyone else who may
 move the token, in any interleaving.
 */
module EndToEnd {
  import opened Words
  import opened IntentPayload
  import opened DonationToken
  import M = MultisigSpec
  import opened MultisigCalls
  import opened VaultContract
  import opened IntentVaultContract

  datatype System = System(multisig: M.State, arbitrum: IntentWorld)

  datatype SystemEvent =
    | CallMultisig(call: M.Call)
    | Relay(vm: Vm, after: seq<Byte>, chainId: Word)
    | Outside(amount: nat, to: EthAddress)

  function SystemStep(c: M.Crypto, s: System, e: SystemEvent): System {
    match e
    case CallMultisig(call) => s.(multisig := M.Step(c, s.multisig, call))
    case Relay(vm, after, chainId) => s.(arbitrum := IntentStep(s.arbitrum, DeliverIntent(vm, after, chainId)))
    case Outside(amount, to) => s.(arbitrum := IntentStep(s.arbitrum, OutsideDonate(amount, to)))
  }

  function SystemRun(c: M.Crypto, s: System, events: seq<SystemEvent>): System {
    if |events| == 0 then s
    else SystemStep(c, SystemRun(c, s, events[..|events| - 1]), events[|events| - 1])
  }

  /** `payload` is a framing of something in the list. */
  ghost predicate FramesOneOf(payload: seq<Byte>, published: seq<M.Publication>) {
    exists p: nat, e: Envelope :: Frames(payload, published, p, e)
  }

  ghost predicate Frames(payload: seq<Byte>, published: seq<M.Publication>, p: nat, e: Envelope) {
    p < |published| && e.WellFormed() && payload == Frame(e, published[p].rows)
  }

  /**
   The one assumption on Wormhole: a message it declares valid at some moment frames a payload this
   multisig had published by then. Nothing limits how often or in which order messages arrive.
   */
  ghost predicate Genuine(c: M.Crypto, s: System, events: seq<SystemEvent>) {
    forall k :: 0 <= k < |events| ==> GenuineAt(c, s, events, k)
  }

  ghost predicate GenuineAt(c: M.Crypto, s: System, events: seq<SystemEvent>, k: nat)
    requires k < |events|
  {
    events[k].Relay? && events[k].vm.valid ==>
      FramesOneOf(events[k].vm.payload, SystemRun(c, s, events[..k]).multisig.published)
  }

  /** The vault accepted the message that event `k` relayed. */
  predicate Delivered(c: M.Crypto, s: System, events: seq<SystemEvent>, k: nat)
    requires k < |events|
  {
    var w := SystemRun(c, s, events[..k]).arbitrum;
    events[k].Relay? && AcceptsIntent(w.vault, w.token, events[k].chainId, events[k].vm, events[k].after)
  }

  /** Event `j` is an intent that the multisig accepted with signatures from a quorum of its then active signers. */
  ghost predicate ApprovedIntent(c: M.Crypto, s: System, events: seq<SystemEvent>, j: nat, intent: Intent)
    requires j < |events|
  {
    && events[j].CallMultisig? && events[j].call.op.ExecuteIntent? && events[j].call.op.intent == intent
    && var m := SystemRun(c, s, events[..j]).multisig;
       var sigs := events[j].call.op.signatures;
    && M.Accepts(c, m, events[j].call)
    && M.DistinctOwners(sigs) && M.SlotsVerify(c, m, events[j].call.op.hash, sigs)
    && M.Owners(sigs) <= M.Active(m)
    && |M.Owners(sigs)| >= M.Quorum(m) >= 1
  }

  lemma AcceptedIntentIsApproved(c: M.Crypto, s: System, events: seq<SystemEvent>, j: nat)
    requires j < |events| && events[j].CallMultisig? && events[j].call.op.ExecuteIntent?
    requires M.Accepts(c, SystemRun(c, s, events[..j]).multisig, events[j].call)
    ensures ApprovedIntent(c, s, events, j, events[j].call.op.intent)
  {
  }

  /** The last event adds a publication only if it is an accepted intent, and then that intent's. */
  lemma NewPublication(c: M.Crypto, s: System, e: SystemEvent, p: nat)
    requires |s.multisig.published| <= p < |SystemStep(c, s, e).multisig.published|
    ensures e.CallMultisig? && e.call.op.ExecuteIntent? && M.Accepts(c, s.multisig, e.call)
    ensures PublishedBy(SystemStep(c, s, e).multisig.published[p], s.multisig.master, e.call.op)
  {
  }

  lemma OldPublication(c: M.Crypto, s: System, e: SystemEvent, p: nat)
    requires p < |s.multisig.published|
    ensures p < |SystemStep(c, s, e).multisig.published|
    ensures SystemStep(c, s, e).multisig.published[p] == s.multisig.published[p]
  {
  }

  /** Some event before `n` is an approved intent, and this is its publication by `master`. */
  ghost predicate ApprovedBefore(c: M.Crypto, s: System, events: seq<SystemEvent>, n: nat, master: Address,
                                 p: M.Publication)
    requires n <= |events|
  {
    exists j: nat, intent: Intent :: j < n && PublishedFor(c, s, events, j, intent, master, p)
  }

  /** Event `j` is an approved intent; `p` goes to the Wormhole contract it names, from `master`, with its encoding. */
  ghost predicate PublishedFor(c: M.Crypto, s: System, events: seq<SystemEvent>, j: nat, intent: Intent,
                               master: Address, p: M.Publication)
    requires j < |events|
  {
    && ApprovedIntent(c, s, events, j, intent)
    && p.wormhole == events[j].call.op.wormhole && p.sender == master && p.rows == Encode(intent)
  }

  lemma {:induction false} MasterStays(c: M.Crypto, s: System, events: seq<SystemEvent>)
    ensures SystemRun(c, s, events).multisig.master == s.multisig.master
  {
    if |events| > 0 {
      MasterStays(c, s, events[..|events| - 1]);
    }
  }

  lemma {:induction false} PublicationWasApproved(c: M.Crypto, s: System, events: seq<SystemEvent>, n: nat, p: nat)
    requires s.multisig.published == [] && n <= |events|
    requires p < |SystemRun(c, s, events[..n]).multisig.published|
    ensures ApprovedBefore(c, s, events, n, s.multisig.master, SystemRun(c, s, events[..n]).multisig.published[p])
  {
    if n == 0 {
      assert false;
    }
    assert events[..n][..n - 1] == events[..n - 1];
    var before, master := SystemRun(c, s, events[..n - 1]), s.multisig.master;
    if p < |before.multisig.published| {
      OldPublication(c, before, events[n - 1], p);
      PublicationWasApproved(c, s, events, n - 1, p);
      var j: nat, intent: Intent :|
        j < n - 1 && PublishedFor(c, s, events, j, intent, master, before.multisig.published[p]);
      assert j < n && PublishedFor(c, s, events, j, intent, master, before.multisig.published[p]);
    } else {
      NewPublication(c, before, events[n - 1], p);
      AcceptedIntentIsApproved(c, s, events, n - 1);
      MasterStays(c, s, events[..n - 1]);
      assert PublishedFor(c, s, events, n - 1, events[n - 1].call.op.intent, master,
                          SystemRun(c, s, events[..n]).multisig.published[p]);
    }
  }

  /** What the vault takes from a message that frames an encoded intent. */
  ghost predicate Matches(d: Decoded, intent: Intent) {
    && d.chain == intent.targetChain % TWO_248
    && d.target == intent.targetContract % TWO_160
    && d.intentType == intent.intentType % TWO_240
    && d.amount == intent.amount % TWO_248
    && d.recipient == intent.recipient % TWO_160
  }

  /** Every accepted message carries an intent that a quorum approved before. */
  lemma EveryDeliveryWasApproved(c: M.Crypto, s: System, events: seq<SystemEvent>, k: nat)
    requires s.multisig.published == [] && Genuine(c, s, events)
    requires k < |events| && Delivered(c, s, events, k)
    ensures exists j: nat, intent: Intent ::
      j < k && ApprovedIntent(c, s, events, j, intent) && Matches(Fields(events[k].vm, events[k].after), intent)
  {
    var published := SystemRun(c, s, events[..k]).multisig.published;
    assert GenuineAt(c, s, events, k);
    var p: nat, e: Envelope :| Frames(events[k].vm.payload, published, p, e);
    PublicationWasApproved(c, s, events, k, p);
    var j: nat, intent: Intent :|
      j < k && PublishedFor(c, s, events, j, intent, s.multisig.master, published[p]);
    RoundTrip(intent, e, events[k].after);
    assert j < k && ApprovedIntent(c, s, events, j, intent);
  }

  /**
   The end-to-end property: in every interleaving, each token minted through the vault goes back to
   an intent approved by a quorum, and the amount and the receiver are the approved ones, up to the
   width the payload keeps of them.
   */
  lemma EveryMintWasApproved(c: M.Crypto, s: System, events: seq<SystemEvent>, k: nat)
    requires s.multisig.published == [] && Genuine(c, s, events)
    requires k < |events| && events[k].Relay?
    requires SystemRun(c, s, events[..k + 1]).arbitrum.token != SystemRun(c, s, events[..k]).arbitrum.token
    ensures exists j: nat, intent: Intent ::
      && j < k && ApprovedIntent(c, s, events, j, intent)
      && MintedFor(SystemRun(c, s, events[..k]).arbitrum, SystemRun(c, s, events[..k + 1]).arbitrum,
                   events[k].chainId, intent)
  {
    var w := SystemRun(c, s, events[..k]).arbitrum;
    assert events[..k + 1][..k] == events[..k];
    TokenMovesByTransfer(w, events[k].vm, events[k].after, events[k].chainId);
    EveryDeliveryWasApproved(c, s, events, k);
    var j: nat, intent: Intent :|
      j < k && ApprovedIntent(c, s, events, j, intent) && Matches(Fields(events[k].vm, events[k].after), intent);
    assert MintedFor(w, SystemRun(c, s, events[..k + 1]).arbitrum, events[k].chainId, intent);
  }

  /** The token went from `w` to `z` by minting what `intent` asks for, on the chain and vault it names. */
  ghost predicate MintedFor(w: IntentWorld, z: IntentWorld, chainId: Word, intent: Intent) {
    && intent.intentType % TWO_240 == 1
    && intent.targetChain % TWO_248 == chainId
    && intent.targetContract % TWO_160 == w.vault.self
    && z.token == Mint(w.token, intent.amount % TWO_248, intent.recipient % TWO_160)
  }

  /** A relayed message moves the token only as an accepted transfer. */
  lemma TokenMovesByTransfer(w: IntentWorld, vm: Vm, after: seq<Byte>, chainId: Word)
    requires IntentStep(w, DeliverIntent(vm, after, chainId)).token != w.token
    ensures AcceptsIntent(w.vault, w.token, chainId, vm, after)
    ensures Fields(vm, after).intentType == 1
    ensures IntentStep(w, DeliverIntent(vm, after, chainId)).token ==
            Mint(w.token, Fields(vm, after).amount, Fields(vm, after).recipient)
  {
  }

  /** The vault takes the intent's fields as they were approved. */
  ghost predicate Exactly(d: Decoded, intent: Intent) {
    && d.chain == intent.targetChain && d.target == intent.targetContract
    && d.intentType == intent.intentType && d.amount == intent.amount && d.recipient == intent.recipient
  }

  lemma MatchIsExactIffInRange(d: Decoded, intent: Intent)
    requires Matches(d, intent)
    ensures Exactly(d, intent) <==> InRange(intent)
  {
  }

  /** In every interleaving, an accepted message carries its approved intent exactly iff the intent's fields fit. */
  lemma InRangeIntentsArriveExactly(c: M.Crypto, s: System, events: seq<SystemEvent>, k: nat)
    requires s.multisig.published == [] && Genuine(c, s, events)
    requires k < |events| && Delivered(c, s, events, k)
    ensures exists j: nat, intent: Intent ::
      && j < k && ApprovedIntent(c, s, events, j, intent)
      && Matches(Fields(events[k].vm, events[k].after), intent)
      && (Exactly(Fields(events[k].vm, events[k].after), intent) <==> InRange(intent))
  {
    EveryDeliveryWasApproved(c, s, events, k);
    var d := Fields(events[k].vm, events[k].after);
    var j: nat, intent: Intent :| j < k && ApprovedIntent(c, s, events, j, intent) && Matches(d, intent);
    MatchIsExactIffInRange(d, intent);
  }

  // ---------- The way there: when a framed intent is accepted ----------

  /** What the vault on `chainId` with address `self` demands of an intent, in the widths the payload keeps. */
  predicate Deliverable(intent: Intent, self: EthAddress, chainId: Word, t: Token) {
    && intent.targetChain % TWO_248 == chainId
    && intent.targetContract % TWO_160 == self
    && intent.intentType % TWO_240 <= 1
    && intent.amount % TWO_248 > 0 && intent.recipient % TWO_160 != 0
    && (intent.intentType % TWO_240 == 1 ==> t.totalSupply + intent.amount % TWO_248 < TWO_256)
  }

  lemma FramedIntentAcceptedIff(v: State, t: Token, chainId: Word, vm: Vm, after: seq<Byte>,
                                intent: Intent, e: Envelope)
    requires e.WellFormed() && vm.payload == Frame(e, Encode(intent))
    ensures AcceptsIntent(v, t, chainId, vm, after) <==>
      vm.valid && v.evmChainId == chainId && Deliverable(intent, v.self, chainId, t)
  {
    RoundTrip(intent, e, after);
  }

  lemma {:induction false} SystemKeepsIdentity(c: M.Crypto, s: System, events: seq<SystemEvent>)
    ensures
      var v := SystemRun(c, s, events).arbitrum.vault;
      v.self == s.arbitrum.vault.self && v.evmChainId == s.arbitrum.vault.evmChainId
  {
    if |events| > 0 {
      SystemKeepsIdentity(c, s, events[..|events| - 1]);
    }
  }

  /**
   The converse of the end-to-end property: at any point of any run, a valid message that frames an
   intent is delivered iff the intent names this chain and this vault, is of a known type, has an
   amount and a receiver, and the supply has room. Nothing that happened before can stand in its way.
   */
  lemma FramedIntentDeliveredIff(c: M.Crypto, s: System, events: seq<SystemEvent>, k: nat,
                                 intent: Intent, e: Envelope)
    requires k < |events| && events[k].Relay? && events[k].vm.valid
    requires e.WellFormed() && events[k].vm.payload == Frame(e, Encode(intent))
    ensures
      var v, t := s.arbitrum.vault, SystemRun(c, s, events[..k]).arbitrum.token;
      Delivered(c, s, events, k) <==>
        v.evmChainId == events[k].chainId && Deliverable(intent, v.self, events[k].chainId, t)
  {
    var w := SystemRun(c, s, events[..k]).arbitrum;
    SystemKeepsIdentity(c, s, events[..k]);
    FramedIntentAcceptedIff(w.vault, w.token, events[k].chainId, events[k].vm, events[k].after, intent, e);
  }
}
