/**
 The encrypted endpoints (crates/rift-crypto/src/connection.rs). `SecureClient` and
 `SecureServer` share this life cycle: a handshake that may fail, then a cipher and a
 replay window. The AEAD is an arbitrary pair of functions.
 */
module SecureEndpoints {
  import opened Common
  import opened SequenceWindows

  datatype Cipher = Cipher(seal: (nat, Bytes) -> Bytes, open: (nat, Bytes) -> Option<Bytes>)

  datatype ConnectionError = ReplayDetected(packetId: nat) | NotEstablished | DecryptionFailed | HandshakeFailed

  /** How the Noise library answers the last handshake message of this side. */
  datatype NoiseOutcome =
    | MessageRejected
    | SessionRejected
    | SessionReady(cipher: Cipher)

  datatype Delivery = Delivery(packetId: nat, plaintext: Bytes)

  ghost predicate DistinctIds(log: seq<Delivery>) {
    forall i, j | 0 <= i < j < |log| :: log[i].packetId != log[j].packetId
  }

  ghost function Ids(log: seq<Delivery>): set<nat> {
    set i | 0 <= i < |log| :: log[i].packetId
  }

  /** A plaintext delivered under a new id keeps the log free of repeats. */
  lemma DeliverNew(log: seq<Delivery>, d: Delivery)
    requires DistinctIds(log) && d.packetId !in Ids(log)
    ensures DistinctIds(log + [d]) && Ids(log + [d]) == Ids(log) + {d.packetId}
  {
    var log' := log + [d];
    assert forall i | 0 <= i < |log| :: log'[i].packetId in Ids(log);
    forall x: nat
      ensures x in Ids(log') <==> x in Ids(log) || x == d.packetId
    {
      if x in Ids(log) {
        var i :| 0 <= i < |log| && log[i].packetId == x;
        assert log'[i].packetId == x;
      }
      assert log'[|log|].packetId == d.packetId;
    }
  }

  class SecureEndpoint {
    /** The Noise state, until a session is taken out of it. */
    var handshaking: bool
    var cipher: Option<Cipher>
    const recvWindow: SequenceWindow
    /** Every plaintext ever handed to the application. */
    ghost var delivered: seq<Delivery>

    ghost predicate Valid()
      reads this, recvWindow
    {
      && recvWindow.Valid()
      && recvWindow.windowSize == DEFAULT_WINDOW_SIZE
      && (cipher.Some? ==> !handshaking)
      && DistinctIds(delivered)
      && Ids(delivered) == recvWindow.accepted
      && (cipher.None? ==> delivered == [])
    }

    constructor ()
      ensures Valid() && handshaking && cipher.None? && delivered == [] && fresh(recvWindow)
    {
      handshaking, cipher := true, None;
      recvWindow := new SequenceWindow(DEFAULT_WINDOW_SIZE);
      delivered := [];
    }

    method FinishHandshake(outcome: NoiseOutcome) returns (r: Result<(), ConnectionError>)
      requires Valid()
      modifies this`handshaking, this`cipher, recvWindow
      ensures Valid() && delivered == old(delivered)
      ensures r.Ok? <==> old(handshaking) && outcome.SessionReady?
      ensures r.Ok? ==> cipher == Some(outcome.cipher) && delivered == []
      ensures !r.Ok? ==> cipher == old(cipher) && recvWindow.State() == old(recvWindow.State())
      ensures handshaking <==> old(handshaking) && outcome.MessageRejected?
    {
      if !handshaking {
        return Err(NotEstablished);
      }
      if outcome.MessageRejected? {
        return Err(HandshakeFailed);
      }
      handshaking := false;
      if outcome.SessionRejected? {
        return Err(HandshakeFailed);
      }
      cipher := Some(outcome.cipher);
      recvWindow.Reset();
      return Ok(());
    }

    /**
     A packet is opened only after the replay check, and recorded only after it opened:
     every refusal leaves window and log alone, and the second half of check-then-update
     never fails.
     */
    method Decrypt(packetId: nat, ciphertext: Bytes) returns (r: Result<Bytes, ConnectionError>)
      requires Valid() && packetId < U64
      modifies this`delivered, recvWindow
      ensures Valid()
      ensures r.Ok? <==> && old(recvWindow.State()).Accepts(packetId)
                         && cipher.Some?
                         && cipher.value.open(packetId, ciphertext).Some?
      ensures r.Ok? ==> cipher.value.open(packetId, ciphertext) == Some(r.value)
      ensures r.Ok? ==> packetId !in Ids(old(delivered))
      ensures delivered == old(delivered) + if r.Ok? then [Delivery(packetId, r.value)] else []
      ensures recvWindow.accepted == old(recvWindow.accepted) + if r.Ok? then {packetId} else {}
      ensures recvWindow.State() == if r.Ok? then old(recvWindow.State()).Admit(packetId) else old(recvWindow.State())
      ensures r.Err? ==> r.error == if !old(recvWindow.State()).Accepts(packetId) then ReplayDetected(packetId)
                                    else if cipher.None? then NotEstablished
                                    else DecryptionFailed
    {
      var unseen := recvWindow.Check(packetId);
      if !unseen {
        return Err(ReplayDetected(packetId));
      }
      if cipher.None? {
        return Err(NotEstablished);
      }
      var plaintext := cipher.value.open(packetId, ciphertext);
      if plaintext.None? {
        return Err(DecryptionFailed);
      }
      var updated := recvWindow.CheckAndUpdate(packetId);
      assert updated;
      DeliverNew(delivered, Delivery(packetId, plaintext.value));
      delivered := delivered + [Delivery(packetId, plaintext.value)];
      return Ok(plaintext.value);
    }
  }
}
