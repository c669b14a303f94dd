/** The module-level database handle behind `connectDB` / `closeDB`.  The model
    keeps the state of every handle ever opened, oldest first, with `true` while it is open;
    the last one is the handle the module variable points at. */
module Connection {

  datatype Handles = Handles(states: seq<bool>)

  /** No handle yet: the module variable is `undefined`. */
  const Initial: Handles := Handles([])

  /** `db && db.open`. */
  predicate IsOpen(h: Handles) {
    |h.states| > 0 && h.states[|h.states| - 1]
  }

  /** Every handle but the current one has been closed. */
  predicate OnlyCurrentOpen(h: Handles) {
    forall i :: 0 <= i < |h.states| - 1 ==> !h.states[i]
  }

  function OpenCount(s: seq<bool>): nat
    decreases |s|
  {
    if |s| == 0 then 0 else (if s[0] then 1 else 0) + OpenCount(s[1..])
  }

  /** `closeDB`: close the current handle if it is open, otherwise do nothing. */
  function Close(h: Handles): Handles {
    if IsOpen(h) then Handles(h.states[..|h.states| - 1] + [false]) else h
  }

  /** `connectDB`: close the current handle if it is open, then open a new one. */
  function Connect(h: Handles): Handles {
    Handles(Close(h).states + [true])
  }

  lemma {:induction false} ClosedPrefixCount(s: seq<bool>)
    requires forall i :: 0 <= i < |s| ==> !s[i]
    ensures OpenCount(s) == 0
    decreases |s|
  {
    if |s| > 0 {
      ClosedPrefixCount(s[1..]);
    }
  }

  lemma {:induction false} CountAppend(s: seq<bool>, b: bool)
    ensures OpenCount(s + [b]) == OpenCount(s) + (if b then 1 else 0)
    decreases |s|
  {
    if |s| == 0 {
      assert s + [b] == [b];
    } else {
      CountAppend(s[1..], b);
      assert (s + [b])[1..] == s[1..] + [b];
    }
  }

  /** When only the current handle may be open, at most one handle is open. */
  lemma AtMostOneOpen(h: Handles)
    requires OnlyCurrentOpen(h)
    ensures OpenCount(h.states) <= 1
    ensures OpenCount(h.states) == 1 <==> IsOpen(h)
  {
    if |h.states| > 0 {
      var n := |h.states| - 1;
      ClosedPrefixCount(h.states[..n]);
      CountAppend(h.states[..n], h.states[n]);
      assert h.states[..n] + [h.states[n]] == h.states;
    }
  }

  /** After `connectDB` exactly one handle is open, the new current one. */
  lemma ConnectOpensOne(h: Handles)
    requires OnlyCurrentOpen(h)
    ensures IsOpen(Connect(h)) && OnlyCurrentOpen(Connect(h))
    ensures OpenCount(Connect(h).states) == 1
    ensures |Connect(h).states| == |h.states| + 1
  {
    var c := Close(h);
    assert forall i :: 0 <= i < |c.states| ==> !c.states[i];
    AtMostOneOpen(Connect(h));
  }

  /** After `closeDB` no handle is open; when none was open it changes nothing. */
  lemma CloseClosesAll(h: Handles)
    requires OnlyCurrentOpen(h)
    ensures !IsOpen(Close(h)) && OnlyCurrentOpen(Close(h))
    ensures OpenCount(Close(h).states) == 0
    ensures !IsOpen(h) ==> Close(h) == h
  {
    AtMostOneOpen(Close(h));
  }
}
