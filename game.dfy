/** The page's objects: each Button with its fixed identity, its label and
    its click handler; the UI holding the buttons on the display surface;
    and the Game, which owns the session and changes it step by step. Every
    Game method is tied to the value-level rules of module Rules. */
module MemoryGame {
  import opened Wrappers
  import opened Rules

  /** No button occurs twice. */
  ghost predicate Distinct(bs: seq<Button>)
  {
    forall i, j :: 0 <= i < j < |bs| ==> bs[i] != bs[j]
  }

  /** One clickable button: its identity is its index at creation. */
  class Button {
    const index: int
    /** The displayed text: None is blank, Some(v) shows v. */
    var text: Label
    /** The installed click handler, as the identity it reports; None while
        no handler is installed. */
    var onClick: Option<int>

    /** A new button shows its 1-based number and has no handler yet. */
    constructor (index: int)
      ensures this.index == index
      ensures text == Some(index + 1) && onClick == None
    {
      this.index := index;
      text := Some(index + 1);
      onClick := None;
    }

    method HideNumber()
      modifies this`text
      ensures text == None
    {
      text := None;
    }

    method RevealNumber()
      modifies this`text
      ensures text == Some(index + 1)
    {
      text := Some(index + 1);
    }
  }

  /** The display surface: the buttons it holds, in the order appended. */
  class UI {
    var container: seq<Button>

    constructor ()
      ensures container == []
    {
      container := [];
    }

    method ClearButtons()
      modifies this
      ensures container == []
    {
      container := [];
    }

    method AddButton(b: Button)
      modifies this
      ensures container == old(container) + [b]
    {
      container := container + [b];
    }

    /** Installs on the button at each position i a handler reporting i. */
    method MakeButtonsClickable(bs: seq<Button>)
      requires Distinct(bs)
      modifies bs
      ensures forall i :: 0 <= i < |bs| ==> bs[i].onClick == Some(i)
      ensures forall i :: 0 <= i < |bs| ==> bs[i].text == old(bs[i].text)
    {
      for i := 0 to |bs|
        invariant forall j :: 0 <= j < i ==> bs[j].onClick == Some(j)
        invariant forall j :: i <= j < |bs| ==> bs[j].onClick == old(bs[j].onClick)
        invariant forall j :: 0 <= j < |bs| ==> bs[j].text == old(bs[j].text)
      {
        bs[i].onClick := Some(i);
      }
    }

    /** Reveals the number of every button whose identity occurs in `order`,
        so that the whole correct order becomes visible. */
    method RevealCorrectOrder(bs: seq<Button>, order: seq<int>)
      requires Distinct(bs)
      requires forall j :: 0 <= j < |order| ==> 0 <= order[j] < |bs|
      modifies bs
      ensures forall p :: 0 <= p < |bs| ==>
        bs[p].text == if p in order then Some(bs[p].index + 1) else old(bs[p].text)
      ensures forall p :: 0 <= p < |bs| ==> bs[p].onClick == old(bs[p].onClick)
    {
      for i := 0 to |order|
        invariant forall p :: 0 <= p < |bs| ==>
          bs[p].text == if p in order[..i] then Some(bs[p].index + 1) else old(bs[p].text)
        invariant forall p :: 0 <= p < |bs| ==> bs[p].onClick == old(bs[p].onClick)
      {
        assert order[..i + 1] == order[..i] + [order[i]];
        bs[order[i]].RevealNumber();
      }
      assert order[..|order|] == order;
    }
  }

  /** The limit the scramble interval compares its counter with: NaN and
      counts below 1 allow no scramble at all. */
  function ScrambleLimit(numberOfButtons: Option<int>): nat
  {
    if numberOfButtons.Some? && numberOfButtons.value > 0 then numberOfButtons.value else 0
  }

  class Game {
    const ui: UI
    var buttons: seq<Button>
    var correctOrder: seq<int>
    var userOrder: seq<int>
    /** The last parsed count; None is NaN. */
    var numberOfButtons: Option<int>
    /** State of the running scramble interval: ticks that scrambled so far,
        and whether the interval is still registered. */
    var scrambleCount: nat
    var scrambling: bool

    /** Button i has identity i and shows blank or its own number; its
        handler, once installed, reports i; the correct order is the
        identities in creation order and the player's progress is a prefix
        of it. */
    ghost predicate Valid()
      reads this, buttons
    {
      && (forall i :: 0 <= i < |buttons| ==> buttons[i].index == i)
      && (forall i :: 0 <= i < |buttons| ==> buttons[i].text == None || buttons[i].text == Some(i + 1))
      && (forall i :: 0 <= i < |buttons| ==> buttons[i].onClick == None || buttons[i].onClick == Some(i))
      && correctOrder == Identities(|buttons|)
      && userOrder <= correctOrder
    }

    ghost function Labels(): seq<Label>
      reads this, buttons
    {
      var bs := buttons;
      seq(|bs|, i requires 0 <= i < |bs| reads bs => bs[i].text)
    }

    /** The session as the rules see it. */
    ghost function Snapshot(): (s: Session)
      reads this, buttons
      requires Valid()
      ensures WellFormed(s)
    {
      Session(Labels(), correctOrder, userOrder)
    }

    /** Buttons with distinct identities are distinct objects. */
    lemma IdentitiesAreDistinct()
      requires Valid()
      ensures Distinct(buttons)
    {
      forall i, j | 0 <= i < j < |buttons|
        ensures buttons[i] != buttons[j]
      {
        assert buttons[i].index != buttons[j].index;
      }
    }

    constructor (ui: UI)
      ensures Valid() && this.ui == ui
      ensures buttons == [] && correctOrder == [] && userOrder == []
      ensures numberOfButtons == Some(0)
      ensures scrambleCount == 0 && !scrambling
    {
      this.ui := ui;
      buttons := [];
      correctOrder := [];
      userOrder := [];
      numberOfButtons := Some(0);
      scrambleCount := 0;
      scrambling := false;
    }

    /** Starts a game with the parsed count. The count is stored whether or
        not it is accepted; an accepted count replaces the buttons by n new
        ones showing 1 .. n, the correct order by 0 .. n-1 and clears the
        progress; a rejected one leaves everything else as it was. */
    method StartGame(input: Option<int>) returns (msg: Message)
      requires Valid()
      modifies this, ui
      ensures Valid()
      ensures numberOfButtons == input
      ensures msg == if ValidCount(input) then Start else Validation
      ensures scrambleCount == old(scrambleCount) && scrambling == old(scrambling)
      ensures ValidCount(input) ==>
        && |buttons| == input.value
        && (forall i :: 0 <= i < |buttons| ==> fresh(buttons[i]))
        && Labels() == Shown(|buttons|)
        && (forall i :: 0 <= i < |buttons| ==> buttons[i].onClick == None)
        && correctOrder == Identities(|buttons|)
        && userOrder == []
        && ui.container == buttons
      ensures !ValidCount(input) ==>
        && buttons == old(buttons) && correctOrder == old(correctOrder)
        && userOrder == old(userOrder) && ui.container == old(ui.container)
    {
      numberOfButtons := input;
      if input.Some? && input.value >= 3 && input.value <= 7 {
        msg := Start;
        ui.ClearButtons();
        buttons := CreateButtons(input.value);
        var bs := buttons;
        correctOrder := seq(|bs|, i requires 0 <= i < |bs| => bs[i].index);
        assert correctOrder == Identities(|bs|);
        userOrder := [];
        assert Labels() == Shown(|bs|);
      } else {
        msg := Validation;
      }
    }

    /** Creates buttons with identities 0 .. n-1 and appends each to the
        display surface. */
    method CreateButtons(n: int) returns (bs: seq<Button>)
      modifies ui
      ensures |bs| == if n > 0 then n else 0
      ensures forall i :: 0 <= i < |bs| ==> fresh(bs[i])
      ensures forall i :: 0 <= i < |bs| ==>
        bs[i].index == i && bs[i].text == Some(i + 1) && bs[i].onClick == None
      ensures ui.container == old(ui.container) + bs
    {
      bs := [];
      var i := 0;
      while i < n
        invariant i == |bs| && (i <= n || i == 0)
        invariant forall j :: 0 <= j < i ==> fresh(bs[j])
        invariant forall j :: 0 <= j < i ==>
          bs[j].index == j && bs[j].text == Some(j + 1) && bs[j].onClick == None
        invariant ui.container == old(ui.container) + bs
      {
        var button := new Button(i);
        bs := bs + [button];
        ui.AddButton(button);
        i := i + 1;
      }
    }

    /** The delayed start of scrambling: registers the interval with its
        counter at zero. */
    method StartScrambling()
      modifies this`scrambleCount, this`scrambling
      ensures scrambleCount == 0 && scrambling
    {
      scrambleCount := 0;
      scrambling := true;
    }

    /** One firing of the scramble interval. While the counter is below the
        current count it scrambles (which moves buttons only) and counts;
        otherwise it cancels the interval and hides the numbers. */
    method ScrambleTick() returns (scrambled: bool)
      requires Valid() && scrambling
      modifies this`scrambleCount, this`scrambling, buttons
      ensures Valid()
      ensures scrambled <==> old(scrambleCount) < ScrambleLimit(numberOfButtons)
      ensures scrambled ==> scrambleCount == old(scrambleCount) + 1 && scrambling
      ensures scrambled ==> Labels() == old(Labels())
      ensures scrambled ==> forall i :: 0 <= i < |buttons| ==> buttons[i].onClick == old(buttons[i].onClick)
      ensures !scrambled ==> scrambleCount == old(scrambleCount) && !scrambling
      ensures !scrambled ==> Labels() == Blank(|buttons|)
      ensures !scrambled ==> forall i :: 0 <= i < |buttons| ==> buttons[i].onClick == Some(i)
    {
      if numberOfButtons.Some? && scrambleCount < numberOfButtons.value {
        scrambleCount := scrambleCount + 1;
        scrambled := true;
      } else {
        scrambling := false;
        HideNumbers();
        scrambled := false;
      }
    }

    /** Blanks every label, then installs the click handlers. */
    method HideNumbers()
      requires Valid()
      modifies buttons
      ensures Valid()
      ensures Labels() == Blank(|buttons|)
      ensures forall i :: 0 <= i < |buttons| ==> buttons[i].onClick == Some(i)
    {
      for i := 0 to |buttons|
        invariant Valid()
        invariant forall j :: 0 <= j < i ==> buttons[j].text == None
        invariant forall j :: 0 <= j < |buttons| ==> buttons[j].onClick == old(buttons[j].onClick)
      {
        buttons[i].HideNumber();
      }
      ui.MakeButtonsClickable(buttons);
    }

    /** Judges a click reporting identity k, exactly as Rules.Click does;
        the handlers and the correct order stay as they were. */
    method HandleClick(k: int) returns (msg: Option<Message>)
      requires Valid()
      modifies this`userOrder, buttons
      ensures Valid()
      ensures correctOrder == old(correctOrder)
      ensures forall i :: 0 <= i < |buttons| ==> buttons[i].onClick == old(buttons[i].onClick)
      ensures Outcome(Snapshot(), msg) == Click(old(Snapshot()), k)
    {
      if |userOrder| < |correctOrder| && k == correctOrder[|userOrder|] {
        msg := AcceptClick(k);
      } else {
        msg := Some(Failure);
        RevealAll();
      }
    }

    /** The correct branch: records k, reveals button k, and raises Success
        once the order is complete. */
    method AcceptClick(k: int) returns (msg: Option<Message>)
      requires Valid() && NextExpected(Snapshot()) == Some(k)
      modifies this`userOrder, buttons
      ensures Valid()
      ensures correctOrder == old(correctOrder)
      ensures forall i :: 0 <= i < |buttons| ==> buttons[i].onClick == old(buttons[i].onClick)
      ensures Outcome(Snapshot(), msg) == Click(old(Snapshot()), k)
    {
      ghost var s := Snapshot();
      CorrectClick(s, k);
      userOrder := userOrder + [k];
      buttons[k].RevealNumber();
      assert Labels() == s.labels[k := Some(k + 1)];
      msg := if |userOrder| == |correctOrder| then Some(Success) else None;
    }

    /** The failure branch: reveals every button of the correct order. */
    method RevealAll()
      requires Valid()
      modifies buttons
      ensures Valid()
      ensures forall i :: 0 <= i < |buttons| ==> buttons[i].onClick == old(buttons[i].onClick)
      ensures Labels() == RevealOrder(old(Labels()), correctOrder)
    {
      IdentitiesAreDistinct();
      ui.RevealCorrectOrder(buttons, correctOrder);
    }

    /** A click on the button at position p: nothing happens until its
        handler is installed; after that the game judges identity p. */
    method ClickButton(p: int) returns (msg: Option<Message>)
      requires Valid() && 0 <= p < |buttons|
      modifies this`userOrder, buttons
      ensures Valid()
      ensures correctOrder == old(correctOrder)
      ensures forall i :: 0 <= i < |buttons| ==> buttons[i].onClick == old(buttons[i].onClick)
      ensures old(buttons[p].onClick) == None ==> msg == None && Snapshot() == old(Snapshot())
      ensures old(buttons[p].onClick) != None ==> Outcome(Snapshot(), msg) == Click(old(Snapshot()), p)
    {
      match buttons[p].onClick
      case None =>
        msg := None;
      case Some(k) =>
        msg := HandleClick(k);
    }
  }

  /** The host's timer running the scramble interval from its delayed start
      until it cancels itself: exactly as many ticks scramble as the stored
      count allows, then one tick hides every number and installs the
      handlers. */
  method RunScrambleInterval(g: Game) returns (scrambles: nat)
    requires g.Valid()
    modifies g`scrambleCount, g`scrambling, g.buttons
    ensures g.Valid() && !g.scrambling
    ensures scrambles == ScrambleLimit(g.numberOfButtons)
    ensures g.Labels() == Blank(|g.buttons|)
    ensures forall i :: 0 <= i < |g.buttons| ==> g.buttons[i].onClick == Some(i)
  {
    g.StartScrambling();
    scrambles := 0;
    var running := true;
    while running
      invariant g.Valid()
      invariant g.buttons == old(g.buttons) && g.numberOfButtons == old(g.numberOfButtons)
      invariant scrambles <= ScrambleLimit(g.numberOfButtons)
      invariant running ==> g.scrambling && g.scrambleCount == scrambles
      invariant !running ==> !g.scrambling && scrambles == ScrambleLimit(g.numberOfButtons)
      invariant !running ==> g.Labels() == Blank(|g.buttons|)
      invariant !running ==> forall i :: 0 <= i < |g.buttons| ==> g.buttons[i].onClick == Some(i)
      decreases ScrambleLimit(g.numberOfButtons) - scrambles, running
    {
      var scrambled := g.ScrambleTick();
      if scrambled {
        scrambles := scrambles + 1;
      } else {
        running := false;
      }
    }
  }

  /** The player clicking the buttons at positions 0 .. n-1 on a game whose
      handlers are installed: the game goes through exactly the sessions
      and alerts that Rules.Play gives for those identities. */
  method ClickInOrder(g: Game, n: nat) returns (alerts: seq<Option<Message>>)
    requires g.Valid() && |g.buttons| == n
    requires forall j :: 0 <= j < n ==> g.buttons[j].onClick == Some(j)
    modifies g`userOrder, g.buttons
    ensures g.Valid()
    ensures (g.Snapshot(), alerts) == Play(old(g.Snapshot()), Identities(n))
  {
    ghost var s := g.Snapshot();
    ghost var c := Identities(n);
    alerts := [];
    assert c[..0] == [];
    for i := 0 to n
      invariant g.Valid()
      invariant forall j :: 0 <= j < n ==> g.buttons[j].onClick == Some(j)
      invariant g.Snapshot() == Play(s, c[..i]).0 && alerts == Play(s, c[..i]).1
    {
      ghost var before := g.Snapshot();
      PlayAppend(s, c[..i], i);
      assert c[..i + 1] == c[..i] + [i];
      var msg := g.ClickButton(i);
      assert Outcome(g.Snapshot(), msg) == Click(before, i);
      alerts := alerts + [msg];
    }
    assert c[..n] == c;
  }

  /** A whole page session: start a game of n buttons, let the scramble
      interval run out, then click the buttons at positions 0 .. n-1. Every
      click but the last raises nothing and the last raises Success. */
  method PerfectGameWins(n: int) returns (alerts: seq<Option<Message>>)
    requires 3 <= n <= 7
    ensures |alerts| == n
    ensures alerts[n - 1] == Some(Success)
    ensures forall i :: 0 <= i < n - 1 ==> alerts[i] == None
  {
    var ui := new UI();
    var g := new Game(ui);
    var started := g.StartGame(Some(n));
    var scrambles := RunScrambleInterval(g);
    assert g.Snapshot() == Hidden(n);
    alerts := ClickInOrder(g, n);
    InOrderWins(n);
  }
}
