/** What the proof of a header attests, and how far the client's stored state follows it. The client
    verifies the proof against the header's public values; the height and the state root it stores
    are separate fields of the header. */
module Attestation {
  import opened Bytes
  import opened PublicValues
  import opened Keys
  import opened ClientStore
  import opened LightClient

  /** The public values attest this state root at this height. */
  predicate Attests(publicValues: seq<byte>, height: u64, root: seq<byte>) {
    && Decodable(publicValues)
    && Fields(publicValues).newestHeight == height && Fields(publicValues).newestStateRoot == root
  }

  /** The header's own fields repeat what its public values attest. */
  predicate Consistent(hd: Header) {
    Attests(hd.publicValues, hd.newestHeight, hd.newestStateRoot)
  }

  /** The client's latest height and the state root stored there are what the public values attest. */
  ghost predicate HoldsAttested(cdc: Codec, m: Store, publicValues: seq<byte>) {
    && GetClientState(m, cdc).Some?
    && var latest := GetClientState(m, cdc).value.latestHeight;
      && GetConsensusState(m, cdc, Height(0, latest)).Ok?
      && Attests(publicValues, latest, GetConsensusState(m, cdc, Height(0, latest)).value.stateRoot)
  }

  /** After an accepted update the client holds the attested state if and only if the public values
      decode and the header's height and state root equal the decoded ones. */
  lemma AttestedExactly(cdc: Codec, m: Store, a: Action, m': Store)
    requires Lawful(cdc) && Indexed(m, cdc) && Accepts(m, cdc, a) && m' == Step(m, cdc, a)
    ensures HoldsAttested(cdc, m', a.msg.header.publicValues) <==> Consistent(a.msg.header)
  {
    AcceptedStep(cdc, m, a, m');
  }

  /** The same action with another height and state root in its header. */
  function Refilled(a: Action, height: u64, root: seq<byte>): Action
    requires a.Update? && a.msg.HeaderMessage?
  {
    a.(msg := HeaderMessage(a.msg.header.(newestHeight := height, newestStateRoot := root)))
  }

  /** Acceptance does not depend on the two fields, except that the height is above the trusted one;
      and the client stores them as they are. */
  lemma FieldsAreFree(cdc: Codec, m: Store, a: Action, height: u64, root: seq<byte>, m': Store)
    requires Lawful(cdc) && Indexed(m, cdc) && Accepts(m, cdc, a) && m' == Step(m, cdc, Refilled(a, height, root))
    ensures Accepts(m, cdc, Refilled(a, height, root)) <==> height > ToU64(a.msg.header.trustedHeight)
    ensures height > ToU64(a.msg.header.trustedHeight) ==>
              && GetClientState(m', cdc) == Some(GetClientState(m, cdc).value.(latestHeight := height))
              && GetConsensusState(m', cdc, Height(0, height)) == Ok(ConsensusState(a.msg.header.timestamp, root))
  {
    var b := Refilled(a, height, root);
    assert Request(GetClientState(m, cdc).value, b.msg.header) == Request(GetClientState(m, cdc).value, a.msg.header);
    if height > ToU64(a.msg.header.trustedHeight) {
      AcceptedStep(cdc, m, b, m');
    }
  }

  /** Some action of the run carries a proof, accepted under the keys the client was created with,
      whose public values attest this root at this height. */
  ghost predicate AttestedIn(g: Genesis, acts: seq<Action>, height: u64, root: seq<byte>) {
    exists i :: 0 <= i < |acts| && acts[i].Update? && acts[i].msg.HeaderMessage?
      && Verified(acts[i].verifier, acts[i].msg.header, g.cs.stateTransitionVerifierKey, g.cs.groth16Vk)
      && Attests(acts[i].msg.header.publicValues, height, root)
  }

  /** The same, for what it is to be proven. */
  ghost predicate ProvenIn(g: Genesis, acts: seq<Action>, proves: Statement, height: u64, root: seq<byte>) {
    exists i :: 0 <= i < |acts| && acts[i].Update? && acts[i].msg.HeaderMessage?
      && proves(acts[i].msg.header.stateTransitionProof, acts[i].msg.header.publicValues,
                g.cs.stateTransitionVerifierKey, g.cs.groth16Vk)
      && Attests(acts[i].msg.header.publicValues, height, root)
  }

  ghost predicate AllConsistent(acts: seq<Action>) {
    forall i :: 0 <= i < |acts| && acts[i].Update? && acts[i].msg.HeaderMessage? ==> Consistent(acts[i].msg.header)
  }

  /** In every unpruned run of consistent headers, each stored height other than the initial one
      holds a state root that an accepted proof attests for that height. */
  lemma RunIsAttested(cdc: Codec, g: Genesis, acts: seq<Action>, h: Height)
    requires Lawful(cdc) && Unpruned(acts) && AllConsistent(acts)
    requires Stored(Run(cdc, g, acts), h) && h != LatestHeight(g.cs)
    ensures GetConsensusState(Run(cdc, g, acts), cdc, h).Ok?
    ensures AttestedIn(g, acts, h.height, GetConsensusState(Run(cdc, g, acts), cdc, h).value.stateRoot)
    ensures forall proves :: AllDecide(acts, proves) ==>
              ProvenIn(g, acts, proves, h.height, GetConsensusState(Run(cdc, g, acts), cdc, h).value.stateRoot)
  {
    var m := Run(cdc, g, acts);
    TrustChain(cdc, g, acts);
    assert HeightTrusted(cdc, g, acts, m, h);
    assert Height(0, h.height) == h;
    var i, t := LinkOf(cdc, g, acts, m, h.height);
    assert Consistent(acts[i].msg.header);
  }
}
