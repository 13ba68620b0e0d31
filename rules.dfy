/** The rules of one memory-game session, as values: which count starts a
    game, what a click on an identity does to the labels and to the
    player's progress, and what a whole run of clicks leads to. The classes
    in module MemoryGame are proved against these functions. */
module Rules {
  import opened Wrappers

  /** The four alerts the game raises; their wording lives outside the model. */
  datatype Message = Start | Validation | Success | Failure

  /** A button's displayed text: blank (None) or a number. */
  type Label = Option<int>

  /** The part of a session that clicks act on: the label of the button at
      each position, the identities in creation order, and the identities
      accepted so far. */
  datatype Session = Session(labels: seq<Label>, correctOrder: seq<int>, userOrder: seq<int>)

  /** What one click does: the session afterwards, and the alert, if any. */
  datatype Outcome = Outcome(after: Session, alert: Option<Message>)

  /** A start request is accepted exactly when the parsed count is a number
      from 3 to 7; None is NaN, which fails both comparisons. */
  predicate ValidCount(input: Option<int>)
  {
    input.Some? && input.value >= 3 && input.value <= 7
  }

  /** The identities 0 .. n-1 in creation order. */
  function Identities(n: nat): seq<int>
  {
    seq(n, i => i)
  }

  /** Every button at position i showing its number i+1. */
  function Shown(n: nat): seq<Label>
  {
    seq(n, i => Some(i + 1))
  }

  /** Every button blank. */
  function Blank(n: nat): seq<Label>
  {
    seq(n, i => None)
  }

  /** The session a player faces once the numbers are hidden. */
  function Hidden(n: nat): Session
  {
    Session(Blank(n), Identities(n), [])
  }

  /** Every identity in the correct order names an existing button. */
  predicate WellFormed(s: Session)
  {
    && |s.labels| == |s.correctOrder|
    && forall i :: 0 <= i < |s.correctOrder| ==> 0 <= s.correctOrder[i] < |s.labels|
  }

  /** The identity the next click must report; None once the whole order has
      been entered (reading past the end of the order gives undefined). */
  function NextExpected(s: Session): Option<int>
  {
    if |s.userOrder| < |s.correctOrder| then Some(s.correctOrder[|s.userOrder|]) else None
  }

  /** Reveals the number of every button whose identity occurs in `order`. */
  function RevealOrder(labels: seq<Label>, order: seq<int>): seq<Label>
  {
    seq(|labels|, p requires 0 <= p < |labels| => if p in order then Some(p + 1) else labels[p])
  }

  /** Revealing the identities 0 .. n-1 shows every button's own number,
      whatever the labels were before. */
  lemma RevealEveryIdentity(labels: seq<Label>)
    ensures RevealOrder(labels, Identities(|labels|)) == Shown(|labels|)
  {
    var c := Identities(|labels|);
    forall p | 0 <= p < |labels|
      ensures p in c
    {
      assert c[p] == p;
    }
  }

  /** Judges a click reporting identity k. A correct click records k and
      reveals that one button; it raises Success when it completes the
      order. Any other click raises Failure and reveals every button of the
      correct order. */
  function Click(s: Session, k: int): (r: Outcome)
    requires WellFormed(s)
    ensures WellFormed(r.after)
    ensures r.after.correctOrder == s.correctOrder
  {
    if NextExpected(s) == Some(k) then
      var u := s.userOrder + [k];
      Outcome(s.(labels := s.labels[k := Some(k + 1)], userOrder := u),
              if |u| == |s.correctOrder| then Some(Success) else None)
    else
      Outcome(s.(labels := RevealOrder(s.labels, s.correctOrder)), Some(Failure))
  }

  /** Clicks the identities of `ks` one after another; gives the final
      session and the alert of each click. */
  function Play(s: Session, ks: seq<int>): (r: (Session, seq<Option<Message>>))
    requires WellFormed(s)
    ensures WellFormed(r.0) && r.0.correctOrder == s.correctOrder
    ensures |r.1| == |ks|
    decreases |ks|
  {
    if ks == [] then (s, [])
    else
      var o := Click(s, ks[0]);
      var rest := Play(o.after, ks[1..]);
      (rest.0, [o.alert] + rest.1)
  }

  /** Playing one more click continues from where the earlier clicks left
      the session, and adds that click's alert at the end. */
  lemma {:induction false} PlayAppend(s: Session, ks: seq<int>, k: int)
    requires WellFormed(s)
    ensures var (t, alerts) := Play(s, ks);
      Play(s, ks + [k]) == (Click(t, k).after, alerts + [Click(t, k).alert])
    decreases |ks|
  {
    if ks == [] {
      assert ks + [k] == [k] && [k][1..] == [];
      assert Play(Click(s, k).after, []) == (Click(s, k).after, []);
      assert [Click(s, k).alert] + [] == [] + [Click(s, k).alert];
    } else {
      assert (ks + [k])[0] == ks[0];
      assert (ks + [k])[1..] == ks[1..] + [k];
      var o := Click(s, ks[0]);
      PlayAppend(o.after, ks[1..], k);
      var rest := Play(o.after, ks[1..]);
      assert [o.alert] + (rest.1 + [Click(rest.0, k).alert])
          == ([o.alert] + rest.1) + [Click(rest.0, k).alert];
    }
  }

  /** A correct click appends k to the progress and changes the label of
      button k alone, to k+1; it keeps the progress a prefix of the order. */
  lemma CorrectClick(s: Session, k: int)
    requires WellFormed(s) && s.userOrder <= s.correctOrder
    requires NextExpected(s) == Some(k)
    ensures var r := Click(s, k).after;
      && r.userOrder == s.userOrder + [k]
      && r.userOrder <= r.correctOrder
      && 0 <= k < |r.labels| && r.labels[k] == Some(k + 1)
      && forall p :: 0 <= p < |s.labels| && p != k ==> r.labels[p] == s.labels[p]
  {
  }

  /** A click that is not the next expected identity raises Failure, keeps
      the progress, and shows every button's number. */
  lemma WrongClick(s: Session, k: int)
    requires WellFormed(s) && s.correctOrder == Identities(|s.labels|)
    requires NextExpected(s) != Some(k)
    ensures Click(s, k).alert == Some(Failure)
    ensures Click(s, k).after.userOrder == s.userOrder
    ensures Click(s, k).after.labels == Shown(|s.labels|)
  {
    RevealEveryIdentity(s.labels);
  }

  /** Once the whole order has been entered there is no next identity, so
      every further click, whatever it reports, is judged a failure. */
  lemma CompletedSessionFails(s: Session, k: int)
    requires WellFormed(s) && s.userOrder == s.correctOrder
    ensures NextExpected(s) == None
    ensures Click(s, k) == Outcome(s.(labels := RevealOrder(s.labels, s.correctOrder)), Some(Failure))
  {
  }

  /** Success is raised exactly by the correct click that completes the order. */
  lemma SuccessOnlyOnCompletion(s: Session, k: int)
    requires WellFormed(s) && s.userOrder <= s.correctOrder
    ensures Click(s, k).alert == Some(Success)
        <==> NextExpected(s) == Some(k) && |s.userOrder| + 1 == |s.correctOrder|
    ensures Click(s, k).alert == Some(Success) ==> Click(s, k).after.userOrder == s.correctOrder
  {
  }

  /** Whatever identities are clicked, the progress stays a prefix of the
      correct order. */
  lemma {:induction false} PlayKeepsPrefix(s: Session, ks: seq<int>)
    requires WellFormed(s) && s.userOrder <= s.correctOrder
    ensures Play(s, ks).0.userOrder <= s.correctOrder
    ensures Play(s, ks).0.correctOrder == s.correctOrder
    decreases |ks|
  {
    if ks != [] {
      var o := Click(s, ks[0]);
      if NextExpected(s) == Some(ks[0]) {
        CorrectClick(s, ks[0]);
      }
      PlayKeepsPrefix(o.after, ks[1..]);
    }
  }

  /** Entering the rest of the correct order from position j, one identity
      at a time, completes the order: every click but the last is silent,
      the last raises Success, and each clicked button shows its number. */
  lemma {:induction false} PlayRestOfOrder(s: Session, j: nat)
    requires WellFormed(s) && j < |s.correctOrder|
    requires s.userOrder == s.correctOrder[..j]
    ensures var (t, alerts) := Play(s, s.correctOrder[j..]);
      && t.userOrder == s.correctOrder
      && |alerts| == |s.correctOrder| - j
      && alerts[|alerts| - 1] == Some(Success)
      && (forall i :: 0 <= i < |alerts| - 1 ==> alerts[i] == None)
      && t.labels == RevealOrder(s.labels, s.correctOrder[j..])
    decreases |s.correctOrder| - j
  {
    var c := s.correctOrder;
    var k := c[j];
    assert c[j..][0] == k;
    var o := Click(s, k);
    assert o.after.userOrder == c[..j + 1];
    if j + 1 == |c| {
      assert c[j..] == [k];
      assert c[j..][1..] == [];
    } else {
      assert c[j..][1..] == c[j + 1..];
      PlayRestOfOrder(o.after, j + 1);
      forall p | 0 <= p < |s.labels|
        ensures p in c[j..] <==> p == k || p in c[j + 1..]
      {
        assert c[j..] == [k] + c[j + 1..];
      }
    }
  }

  /** Clicking 0, 1, ..., n-1 on the hidden buttons wins: no alert until the
      last click, Success on it, the progress equals the correct order and
      every number is shown again. */
  lemma {:induction false} InOrderWins(n: nat)
    requires n > 0
    ensures var (t, alerts) := Play(Hidden(n), Identities(n));
      && t.userOrder == Identities(n)
      && t.labels == Shown(n)
      && |alerts| == n
      && alerts[n - 1] == Some(Success)
      && forall i :: 0 <= i < n - 1 ==> alerts[i] == None
  {
    var s := Hidden(n);
    var c := Identities(n);
    assert c[..0] == [];
    assert c[0..] == c;
    PlayRestOfOrder(s, 0);
    RevealEveryIdentity(Blank(n));
  }
}
