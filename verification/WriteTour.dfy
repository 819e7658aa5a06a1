/** The loop of Socket_continueWrites over the list of pending sockets: which of them get their turn. */
module WriteTour {
  // A socket that is done leaves the list, and the loop goes on from the `current` element of the list, which the last
  // search left somewhere, rather than from the next one. So some sockets may be passed over, and some come twice.

  import opened Messages

  /** The sockets that got their turn, in order, and what is left of the list, with its current element. */
  datatype Tour = Tour(offered: seq<int>, pending: seq<int>, current: Option<int>)

  /** Where the current element of the list is, or the end of the list if it has none. */
  function Cursor(pending: seq<int>, current: Option<int>): (i: nat)
    ensures i <= |pending|
    ensures i < |pending| ==> current == Some(pending[i])
    ensures forall j :: 0 <= j < i ==> current != Some(pending[j])
  {
    if pending == [] || current == Some(pending[0]) then 0 else 1 + Cursor(pending[1..], current)
  }

  /** The removal of an element: the current one stays, or moves on if it goes. */
  function CurrentWithout(pending: seq<int>, current: Option<int>, k: nat): Option<int>
    requires k < |pending|
  {
    if current != Some(pending[k]) then current
    else if k + 1 < |pending| then Some(pending[k + 1]) else None
  }

  function Without(pending: seq<int>, k: nat): seq<int>
    requires k < |pending|
  {
    pending[..k] + pending[k + 1..]
  }

  /** The loop from place `i` on. Each socket of `pwset` it comes to gets a turn, and `outcomes` says of each turn
      whether it removes its socket. */
  function Toured(pending: seq<int>, current: Option<int>, pwset: set<int>, i: nat, outcomes: seq<bool>): Tour
    decreases |pending|, |pending| - i
  {
    if i >= |pending| then Tour([], pending, current)
    else if pending[i] !in pwset then Toured(pending, current, pwset, i + 1, outcomes)
    else
      var rest := if outcomes == [] then [] else outcomes[1..];
      var t := if outcomes != [] && outcomes[0] then
                 var fewer, cur := Without(pending, i), CurrentWithout(pending, current, i);
                 Toured(fewer, cur, pwset, Cursor(fewer, cur), rest)
               else Toured(pending, current, pwset, i + 1, rest);
      t.(offered := [pending[i]] + t.offered)
  }

  /** The place of the first removal, or the length of the list. */
  function FirstRemoval(pending: seq<int>, pwset: set<int>, i: nat, outcomes: seq<bool>): (k: nat)
    ensures k < |pending| ==> i <= k && pending[k] in pwset
    decreases |pending| - i
  {
    if i >= |pending| then |pending|
    else if pending[i] !in pwset then FirstRemoval(pending, pwset, i + 1, outcomes)
    else if outcomes != [] && outcomes[0] then i
    else FirstRemoval(pending, pwset, i + 1, if outcomes == [] then [] else outcomes[1..])
  }

  /** The tour after one more turn. */
  ghost predicate GoesOn(pending: seq<int>, current: Option<int>, pwset: set<int>, outcomes: seq<bool>,
                         pending': seq<int>, current': Option<int>, i: nat, offered: seq<int>) {
    forall more :: Toured(pending, current, pwset, 0, outcomes + more)
           == From(pending', current', pwset, i, more, offered)
  }

  ghost function From(pending: seq<int>, current: Option<int>, pwset: set<int>, i: nat, outcomes: seq<bool>,
                      offered: seq<int>): Tour {
    var t := Toured(pending, current, pwset, i, outcomes);
    t.(offered := offered + t.offered)
  }

  lemma TourBegins(pending: seq<int>, current: Option<int>, pwset: set<int>)
    ensures GoesOn(pending, current, pwset, [], pending, current, 0, [])
  {
    forall more
      ensures Toured(pending, current, pwset, 0, [] + more) == From(pending, current, pwset, 0, more, [])
    {
      assert [] + more == more;
    }
  }

  lemma TourSkips(pending: seq<int>, current: Option<int>, pwset: set<int>, outcomes: seq<bool>,
                  pending': seq<int>, current': Option<int>, i: nat, offered: seq<int>)
    requires GoesOn(pending, current, pwset, outcomes, pending', current', i, offered)
    requires i < |pending'| && pending'[i] !in pwset
    ensures GoesOn(pending, current, pwset, outcomes, pending', current', i + 1, offered)
  {
    forall more
      ensures Toured(pending, current, pwset, 0, outcomes + more)
              == From(pending', current', pwset, i + 1, more, offered)
    {
      assert Toured(pending, current, pwset, 0, outcomes + more) == From(pending', current', pwset, i, more, offered);
    }
  }

  lemma OneTurn(pending: seq<int>, current: Option<int>, pwset: set<int>, i: nat, done: bool, more: seq<bool>)
    requires i < |pending| && pending[i] in pwset
    ensures var p := if done then Without(pending, i) else pending;
            var c := if done then CurrentWithout(pending, current, i) else current;
            Toured(pending, current, pwset, i, [done] + more) ==
              From(p, c, pwset, if done then Cursor(p, c) else i + 1, more, [pending[i]])
  {
    assert ([done] + more)[1..] == more;
  }

  lemma FromOn(pending: seq<int>, current: Option<int>, pwset: set<int>, i: nat, outcomes: seq<bool>,
               a: seq<int>, b: seq<int>)
    ensures var t := From(pending, current, pwset, i, outcomes, b);
            t.(offered := a + t.offered) == From(pending, current, pwset, i, outcomes, a + b)
  {
    var t := Toured(pending, current, pwset, i, outcomes);
    assert a + (b + t.offered) == a + b + t.offered;
  }

  lemma TourTurns(pending: seq<int>, current: Option<int>, pwset: set<int>, outcomes: seq<bool>,
                  pending': seq<int>, current': Option<int>, i: nat, offered: seq<int>, done: bool)
    requires GoesOn(pending, current, pwset, outcomes, pending', current', i, offered)
    requires i < |pending'| && pending'[i] in pwset
    ensures var p := if done then Without(pending', i) else pending';
            var c := if done then CurrentWithout(pending', current', i) else current';
            GoesOn(pending, current, pwset, outcomes + [done], p, c, if done then Cursor(p, c) else i + 1,
                   offered + [pending'[i]])
  {
    hide Toured, Cursor, CurrentWithout, Without;
    var p := if done then Without(pending', i) else pending';
    var c := if done then CurrentWithout(pending', current', i) else current';
    var next := if done then Cursor(p, c) else i + 1;
    forall more
      ensures Toured(pending, current, pwset, 0, outcomes + [done] + more) ==
              From(p, c, pwset, next, more, offered + [pending'[i]])
    {
      assert outcomes + [done] + more == outcomes + ([done] + more);
      OneTurn(pending', current', pwset, i, done, more);
      FromOn(p, c, pwset, next, more, offered, [pending'[i]]);
    }
  }

  lemma TourEnds(pending: seq<int>, current: Option<int>, pwset: set<int>, outcomes: seq<bool>,
                 pending': seq<int>, current': Option<int>, i: nat, offered: seq<int>)
    requires GoesOn(pending, current, pwset, outcomes, pending', current', i, offered) && i >= |pending'|
    ensures Toured(pending, current, pwset, 0, outcomes) == Tour(offered, pending', current')
  {
    assert outcomes + [] == outcomes && offered + [] == offered;
    assert Toured(pending, current, pwset, 0, outcomes + []) == From(pending', current', pwset, i, [], offered);
  }

  /** Only sockets of `pwset` get a turn. */
  lemma {:induction false} TourInside(pending: seq<int>, current: Option<int>, pwset: set<int>, i: nat,
                                      outcomes: seq<bool>)
    ensures forall s :: s in Toured(pending, current, pwset, i, outcomes).offered ==> s in pwset && s in pending
    decreases |pending|, |pending| - i
  {
    if i < |pending| {
      if pending[i] !in pwset {
        TourInside(pending, current, pwset, i + 1, outcomes);
      } else {
        var rest := if outcomes == [] then [] else outcomes[1..];
        if outcomes != [] && outcomes[0] {
          var fewer, cur := Without(pending, i), CurrentWithout(pending, current, i);
          TourInside(fewer, cur, pwset, Cursor(fewer, cur), rest);
        } else {
          TourInside(pending, current, pwset, i + 1, rest);
        }
      }
    }
  }

  ghost predicate Distinct(pending: seq<int>) {
    forall i, j :: 0 <= i < j < |pending| ==> pending[i] != pending[j]
  }

  lemma CursorMoves(pending: seq<int>, current: Option<int>, k: nat)
    requires Distinct(pending) && k < |pending|
    ensures var fewer, cur := Without(pending, k), CurrentWithout(pending, current, k);
            var c := Cursor(pending, current);
            && Distinct(fewer)
            && Cursor(fewer, cur) == (if c <= k then c else c - 1)
  {
    var fewer, cur := Without(pending, k), CurrentWithout(pending, current, k);
    var c := Cursor(pending, current);
    var d := if c <= k then c else c - 1;
    assert forall j :: 0 <= j < |fewer| ==> fewer[j] == pending[if j < k then j else j + 1];
    assert d < |fewer| ==> cur == Some(fewer[d]);
    assert forall j :: 0 <= j < d ==> cur != Some(fewer[j]);
    CursorIs(fewer, cur, d);
  }

  lemma CursorIs(pending: seq<int>, current: Option<int>, d: nat)
    requires d <= |pending| && (d < |pending| ==> current == Some(pending[d]))
    requires forall j :: 0 <= j < d ==> current != Some(pending[j])
    ensures Cursor(pending, current) == d
  {
  }

  /** Nothing before both the loop and the current element gets another turn. */
  lemma {:induction false} NotVisited(pending: seq<int>, current: Option<int>, pwset: set<int>, i: nat,
                                      outcomes: seq<bool>, x: nat)
    requires Distinct(pending) && x < |pending| && x < i && x < Cursor(pending, current)
    ensures pending[x] !in Toured(pending, current, pwset, i, outcomes).offered
    decreases |pending|, |pending| - i
  {
    if i < |pending| {
      if pending[i] !in pwset {
        NotVisited(pending, current, pwset, i + 1, outcomes, x);
      } else {
        var rest := if outcomes == [] then [] else outcomes[1..];
        if outcomes != [] && outcomes[0] {
          CursorMoves(pending, current, i);
          var fewer, cur := Without(pending, i), CurrentWithout(pending, current, i);
          assert fewer[x] == pending[x];
          NotVisited(fewer, cur, pwset, Cursor(fewer, cur), rest, x);
        } else {
          NotVisited(pending, current, pwset, i + 1, rest, x);
        }
      }
    }
  }

  /** Once the current element is not ahead of the loop, every socket of `pwset` from here on gets its turn. */
  lemma {:induction false} AllVisited(pending: seq<int>, current: Option<int>, pwset: set<int>, i: nat,
                                      outcomes: seq<bool>, x: nat)
    requires Distinct(pending) && i <= x < |pending| && pending[x] in pwset && Cursor(pending, current) <= i
    ensures pending[x] in Toured(pending, current, pwset, i, outcomes).offered
    decreases |pending|, |pending| - i
  {
    if x != i || pending[i] !in pwset {
      if pending[i] !in pwset {
        AllVisited(pending, current, pwset, i + 1, outcomes, x);
      } else {
        var rest := if outcomes == [] then [] else outcomes[1..];
        if outcomes != [] && outcomes[0] {
          CursorMoves(pending, current, i);
          var fewer, cur := Without(pending, i), CurrentWithout(pending, current, i);
          assert fewer[x - 1] == pending[x];
          AllVisited(fewer, cur, pwset, Cursor(fewer, cur), rest, x - 1);
        } else {
          AllVisited(pending, current, pwset, i + 1, rest, x);
        }
      }
    }
  }

  /** After the removal at `i` a later socket gets its turn unless the current element is behind it. */
  lemma AfterRemoval(pending: seq<int>, current: Option<int>, pwset: set<int>, i: nat, outcomes: seq<bool>, x: nat)
    requires Distinct(pending) && i < x < |pending| && pending[x] in pwset
    ensures var fewer, cur := Without(pending, i), CurrentWithout(pending, current, i);
            pending[x] in Toured(fewer, cur, pwset, Cursor(fewer, cur), outcomes).offered
            <==> x >= Cursor(pending, current)
  {
    hide Toured, Cursor, CurrentWithout, Distinct;
    CursorMoves(pending, current, i);
    var fewer, cur := Without(pending, i), CurrentWithout(pending, current, i);
    assert fewer[x - 1] == pending[x];
    if x < Cursor(pending, current) {
      NotVisited(fewer, cur, pwset, Cursor(fewer, cur), outcomes, x - 1);
    } else {
      AllVisited(fewer, cur, pwset, Cursor(fewer, cur), outcomes, x - 1);
    }
  }

  /** A socket gets its turn unless the first removal is before it and the current element behind it. */
  lemma {:induction false} IsVisited(pending: seq<int>, current: Option<int>, pwset: set<int>, i: nat,
                                     outcomes: seq<bool>, x: nat)
    requires Distinct(pending) && i <= x < |pending| && pending[x] in pwset
    ensures pending[x] in Toured(pending, current, pwset, i, outcomes).offered
            <==> !(FirstRemoval(pending, pwset, i, outcomes) < x < Cursor(pending, current))
    decreases |pending| - i
  {
    hide Cursor, CurrentWithout, Without;
    if pending[i] !in pwset {
      IsVisited(pending, current, pwset, i + 1, outcomes, x);
    } else {
      var rest := if outcomes == [] then [] else outcomes[1..];
      if outcomes != [] && outcomes[0] {
        if x != i {
          AfterRemoval(pending, current, pwset, i, rest, x);
        }
      } else if x != i {
        IsVisited(pending, current, pwset, i + 1, rest, x);
      }
    }
  }

  /** Every pending socket of `pwset` gets its turn if and only if none of them is strictly between the first one that
      is removed and the current element of the list, or the end if there is none. */
  lemma AllGetTheirTurn(pending: seq<int>, current: Option<int>, pwset: set<int>, outcomes: seq<bool>)
    requires Distinct(pending)
    ensures (forall s :: s in pending && s in pwset ==> s in Toured(pending, current, pwset, 0, outcomes).offered)
            <==> forall x :: FirstRemoval(pending, pwset, 0, outcomes) < x < Cursor(pending, current) ==>
                   pending[x] !in pwset
  {
    hide Toured, FirstRemoval, Cursor;
    forall x | 0 <= x < |pending| && pending[x] in pwset
      ensures pending[x] in Toured(pending, current, pwset, 0, outcomes).offered
              <==> !(FirstRemoval(pending, pwset, 0, outcomes) < x < Cursor(pending, current))
    {
      IsVisited(pending, current, pwset, 0, outcomes, x);
    }
  }

  /** Two pending sockets that can both take more, and no current element: when the first is done, the second does not
      get its turn. */
  lemma SecondIsPassedOver(a: int, b: int)
    requires a != b
    ensures Toured([a, b], None, {a, b}, 0, [true]) == Tour([a], [b], None)
  {
    assert Without([a, b], 0) == [b];
    assert Cursor([b][1..], None) == 0;
    assert Cursor([b], None) == 1;
    assert Toured([b], None, {a, b}, 1, []) == Tour([], [b], None);
    assert [true][1..] == [];
  }
}
