/**
 The client's send queue (rotate_to_next_ready_transfer and the rotation in
 send_next_file_chunk, crates/wavry-client/src/client.rs): files take turns, and no ready
 file is overtaken.
 */
module SendQueues {
  /** A queued outgoing file, as far as its turn is concerned. */
  datatype Entry = Entry(fileId: nat, headerSent: bool, paused: bool, finished: bool)

  predicate Ready(e: Entry) { !e.headerSent || (!e.paused && !e.finished) }

  function RotateLeft<T>(q: seq<T>, k: nat): seq<T>
    requires k <= |q|
  {
    q[k..] + q[..k]
  }

  function CountReady(q: seq<Entry>): nat {
    if q == [] then 0 else CountReady(q[..|q| - 1]) + if Ready(q[|q| - 1]) then 1 else 0
  }

  /** Position of the first ready file, or the length when there is none. */
  ghost predicate IsFirstReady(q: seq<Entry>, k: nat) {
    && k <= |q|
    && (forall i | 0 <= i < k :: !Ready(q[i]))
    && (k < |q| ==> Ready(q[k]))
  }

  ghost function FirstReady(q: seq<Entry>): (k: nat)
    ensures IsFirstReady(q, k)
  {
    if q == [] then 0
    else
      var n := |q| - 1;
      var k := FirstReady(q[..n]);
      if k == n && !Ready(q[n]) then n + 1 else k
  }

  /** How many ready files are served before the one at position k. */
  ghost function Ahead(q: seq<Entry>, k: nat): nat
    requires k <= |q|
  {
    CountReady(q[..k])
  }

  lemma {:induction false} CountConcat(a: seq<Entry>, b: seq<Entry>)
    ensures CountReady(a + b) == CountReady(a) + CountReady(b)
  {
    if b == [] {
      assert a + b == a;
    } else {
      var n := |b| - 1;
      CountConcat(a, b[..n]);
      assert (a + b)[..|a + b| - 1] == a + b[..n];
    }
  }

  lemma {:induction false} CountNone(q: seq<Entry>)
    requires forall i | 0 <= i < |q| :: !Ready(q[i])
    ensures CountReady(q) == 0
  {
    if q != [] {
      CountNone(q[..|q| - 1]);
    }
  }

  /** The queue seen from its first ready file. */
  lemma SplitAtServed(q: seq<Entry>, served: nat, k: nat)
    requires IsFirstReady(q, served) && served < k <= |q|
    ensures CountReady(q[..k]) == 1 + CountReady(q[served + 1..k])
    ensures CountReady(q[..served]) == 0
  {
    var before := q[..served];
    CountNone(before);
    assert q[..k] == before + ([q[served]] + q[served + 1..k]);
    CountConcat(before, [q[served]] + q[served + 1..k]);
    CountConcat([q[served]], q[served + 1..k]);
    assert [q[served]][..0] == [];
  }

  /** The first ready file after its turn: changed in any way, but still the same file. */
  ghost function Served(q: seq<Entry>, after: Entry): Entry
    requires FirstReady(q) < |q|
  {
    after.(fileId := q[FirstReady(q)].fileId)
  }

  /** A turn puts what follows the served file first, then what preceded it, then the file. */
  ghost function Turn(q: seq<Entry>, after: Entry): seq<Entry> {
    var s := FirstReady(q);
    if s == |q| then q else q[s + 1..] + q[..s] + [Served(q, after)]
  }

  /**
   After a turn, every other ready file is exactly one turn closer: k is its old position,
   and its new one is k less the rotation.
   */
  lemma OneTurnCloser(q: seq<Entry>, after: Entry, k: nat)
    requires FirstReady(q) < k < |q|
    ensures var q' := Turn(q, after);
            var k' := k - FirstReady(q) - 1;
            |q'| == |q| && q'[k'] == q[k] && Ahead(q', k') == Ahead(q, k) - 1
  {
    hide FirstReady;
    hide CountReady;
    var s := FirstReady(q);
    SplitAtServed(q, s, k);
    assert Turn(q, after)[..k - s - 1] == q[s + 1..k];
  }

  /** The file that was served goes behind every other ready file. */
  lemma ServedGoesLast(q: seq<Entry>, after: Entry)
    requires FirstReady(q) < |q|
    ensures var q' := Turn(q, after);
            && |q'| == |q| && q'[|q| - 1].fileId == q[FirstReady(q)].fileId
            && Ahead(q', |q| - 1) == CountReady(q) - 1
  {
    hide FirstReady;
    hide CountReady;
    var s := FirstReady(q);
    SplitAtServed(q, s, |q|);
    assert q[..|q|] == q;
    assert Turn(q, after)[..|q| - 1] == q[s + 1..|q|] + q[..s];
    CountConcat(q[s + 1..|q|], q[..s]);
  }

  /** Rotating to a file, changing it there and rotating once more. */
  lemma RotateAndServe(q: seq<Entry>, k: nat, e: Entry)
    requires k < |q|
    ensures var r := RotateLeft(q, k);
            && |r| == |q| && r[0] == q[k]
            && r[0 := e] == [e] + q[k + 1..] + q[..k]
            && RotateLeft(r[0 := e], 1) == q[k + 1..] + q[..k] + [e]
            && (|q| == 1 ==> r[0 := e] == q[k + 1..] + q[..k] + [e])
  {
  }

  /** The queue after some turns, each with the state its file is left in. */
  ghost function AfterTurns(q: seq<Entry>, turns: seq<Entry>): seq<Entry>
    decreases |turns|
  {
    if turns == [] then q else AfterTurns(Turn(q, turns[0]), turns[1..])
  }

  /**
   No starvation: a ready file with n ready files ahead of it is the first ready one after n
   turns, whatever each turn does to the file it serves.
   */
  lemma {:induction false} ServedInTurn(q: seq<Entry>, k: nat, turns: seq<Entry>)
    requires k < |q| && Ready(q[k]) && |turns| == Ahead(q, k)
    ensures var q' := AfterTurns(q, turns);
            FirstReady(q') < |q'| && q'[FirstReady(q')] == q[k]
    decreases |turns|
  {
    var s := FirstReady(q);
    if s == k {
      CountNone(q[..k]);
    } else {
      SplitAtServed(q, s, k);
      OneTurnCloser(q, turns[0], k);
      ServedInTurn(Turn(q, turns[0]), k - s - 1, turns[1..]);
    }
  }

  class SendQueue {
    var files: seq<Entry>

    constructor (files: seq<Entry>)
      ensures this.files == files
    {
      this.files := files;
    }

    /** Brings the first ready file, at old position k, to the front. */
    method RotateToNextReady() returns (found: bool, ghost k: nat)
      modifies this`files
      ensures IsFirstReady(old(files), k) && (found <==> k < |old(files)|)
      ensures files == if found then RotateLeft(old(files), k) else old(files)
    {
      var idx := 0;
      while idx < |files| && !Ready(files[idx])
        invariant idx <= |files| && files == old(files)
        invariant forall i | 0 <= i < idx :: !Ready(files[i])
      {
        idx := idx + 1;
      }
      k := idx;
      found := idx < |files|;
      if found {
        files := RotateLeft(files, idx);
      }
    }

    /**
     One tick: a served file goes to the back, a refused one keeps its turn. `after` is the
     state the tick leaves its file in.
     */
    method Tick(progressed: bool, after: Entry) returns (found: bool, ghost k: nat)
      modifies this`files
      ensures k == FirstReady(old(files)) && (found <==> k < |old(files)|)
      ensures forall i | 0 <= i < k :: old(files)[i].headerSent && (old(files)[i].paused || old(files)[i].finished)
      ensures found ==> old(files)[k].headerSent ==> !old(files)[k].paused && !old(files)[k].finished
      ensures found && progressed ==> files == Turn(old(files), after)
      ensures found && !progressed ==> files == [Served(old(files), after)] + old(files)[k + 1..] + old(files)[..k]
      ensures !found ==> files == old(files)
    {
      found, k := RotateToNextReady();
      SameFirstReady(old(files), k);
      if found {
        RotateAndServe(old(files), k, Served(old(files), after));
        hide RotateLeft;
        files := files[0 := after.(fileId := files[0].fileId)];
        if progressed && |files| > 1 {
          files := RotateLeft(files, 1);
        }
      }
    }
  }

  lemma SameFirstReady(q: seq<Entry>, k: nat)
    requires IsFirstReady(q, k)
    ensures k == FirstReady(q)
  {
  }
}
