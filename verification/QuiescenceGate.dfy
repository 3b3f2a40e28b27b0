/**
 The admission and quiescence gate of ww/base/quiescence_gate.h and quiescence_gate.c: one atomic
 word whose top bit says "closed" and whose low bits count the entrants inside. Entrants and one
 lifecycle owner interleave freely; every atomic operation is one step.
 */
module QuiescenceGate {
  import opened Totals

  /** `bit` is QUIESCENCE_GATE_CLOSED, `modulus` the number of values the word can hold. */
  datatype Layout = Layout(bit: nat, modulus: nat) {
    /** At least 30 counter bits, and room for the closed bit above them. */
    predicate Valid() {
      bit >= 0x4000_0000 && modulus >= 2 * bit
    }
  }

  /** word & QUIESCENCE_GATE_CLOSED */
  predicate IsClosed(l: Layout, word: nat)
    requires l.Valid()
  {
    word / l.bit % 2 == 1
  }

  /** word & QUIESCENCE_GATE_COUNT_MASK */
  function Count(l: Layout, word: nat): nat
    requires l.Valid()
  {
    word % l.bit
  }

  /** word | QUIESCENCE_GATE_CLOSED */
  function WithClosed(l: Layout, word: nat): nat
    requires l.Valid()
  {
    if IsClosed(l, word) then word else word + l.bit
  }

  /** Unsigned word arithmetic wraps around. */
  function Wrap(l: Layout, x: int): nat
    requires l.Valid()
  {
    x % l.modulus
  }

  /** One call of Enter, from its first load to the matching Leave. */
  datatype Visit = Loaded(seen: nat) | Inside | Refused | Gone

  /** The owner's view: `Quiesced` from the return of close-and-quiesce until the next open or close. */
  datatype Phase = Running | Closing | Quiesced

  /** `entered` and `opens` record history: successful enters and successful opens so far. */
  datatype State = State(layout: Layout, word: nat, visits: map<nat, Visit>, phase: Phase, entered: nat, opens: nat)

  datatype Action =
    | EnterLoad(v: nat)
    | EnterCas(v: nat)        // check the remembered word and exchange it
    | EnterCasSpurious(v: nat) // the weak exchange fails and reloads
    | Leave(v: nat)
    | Close
    | PollQuiesced            // the owner loads the word and sees a zero count
    | Open

  function Initial(l: Layout): State {
    State(l, l.bit, map[], Running, 0, 0)
  }

  predicate Enabled(s: State, a: Action)
    requires s.layout.Valid()
  {
    match a
    case EnterLoad(v) => v !in s.visits
    case EnterCas(v) => v in s.visits && s.visits[v].Loaded?
    case EnterCasSpurious(v) => v in s.visits && s.visits[v].Loaded? && MayEnter(s.layout, s.visits[v].seen)
    case Leave(v) => v in s.visits && s.visits[v] == Inside
    case Close => true
    case PollQuiesced => s.phase == Closing && Count(s.layout, s.word) == 0
    case Open => true
  }

  /** Neither closed nor saturated. */
  predicate MayEnter(l: Layout, seen: nat)
    requires l.Valid()
  {
    !IsClosed(l, seen) && Count(l, seen) != l.bit - 1
  }

  function Do(s: State, a: Action): State
    requires s.layout.Valid() && Enabled(s, a)
  {
    match a
    case EnterLoad(v) => s.(visits := s.visits[v := Loaded(s.word)])
    case EnterCas(v) =>
      var seen := s.visits[v].seen;
      if !MayEnter(s.layout, seen) then s.(visits := s.visits[v := Refused])
      else if s.word == seen then
        s.(word := Wrap(s.layout, seen + 1), visits := s.visits[v := Inside], entered := s.entered + 1)
      else s.(visits := s.visits[v := Loaded(s.word)])
    case EnterCasSpurious(v) => s.(visits := s.visits[v := Loaded(s.word)])
    case Leave(v) => s.(word := Wrap(s.layout, s.word - 1), visits := s.visits[v := Gone])
    case Close => s.(word := WithClosed(s.layout, s.word), phase := Closing)
    case PollQuiesced => s.(phase := Quiesced)
    case Open =>
      if s.word == s.layout.bit then s.(word := 0, phase := Running, opens := s.opens + 1) else s
  }

  datatype Outcome = Stuck | Reached(state: State)

  function Exec(s: State, acts: seq<Action>): Outcome
    requires s.layout.Valid()
    decreases |acts|
  {
    if acts == [] then Reached(s)
    else if Enabled(s, acts[0]) then Exec(Do(s, acts[0]), acts[1..])
    else Stuck
  }

  // -------------------------------------------------------------------------
  // the packed word

  function Occupies(v: Visit): nat { if v == Inside then 1 else 0 }

  ghost function InsideCount(s: State): nat { Total(s.visits, Occupies) }

  /** Below twice the closed bit, the word is the closed bit plus the count. */
  lemma Unpack(l: Layout, word: nat)
    requires l.Valid() && word < 2 * l.bit
    ensures IsClosed(l, word) <==> word >= l.bit
    ensures Count(l, word) == if word >= l.bit then word - l.bit else word
  {
    if word >= l.bit {
      assert word / l.bit == 1;
      assert word % l.bit == word - l.bit;
    } else {
      assert word / l.bit == 0;
    }
  }

  lemma ModSmall(x: nat, m: nat)
    requires x < m
    ensures x % m == x
  {
  }

  lemma WrapFits(l: Layout, x: int)
    requires l.Valid() && 0 <= x < 2 * l.bit
    ensures Wrap(l, x) == x
  {
    ModSmall(x, l.modulus);
  }

  /** Adding or taking one entrant changes the count by one and never touches the closed bit. */
  lemma CountArithmetic(l: Layout, word: nat)
    requires l.Valid() && word < 2 * l.bit
    ensures MayEnter(l, word) ==>
      && Wrap(l, word + 1) < 2 * l.bit
      && IsClosed(l, Wrap(l, word + 1)) == IsClosed(l, word)
      && Count(l, Wrap(l, word + 1)) == Count(l, word) + 1
    ensures Count(l, word) > 0 ==>
      && Wrap(l, word - 1) < 2 * l.bit
      && IsClosed(l, Wrap(l, word - 1)) == IsClosed(l, word)
      && Count(l, Wrap(l, word - 1)) == Count(l, word) - 1
    ensures
      && WithClosed(l, word) < 2 * l.bit
      && IsClosed(l, WithClosed(l, word))
      && Count(l, WithClosed(l, word)) == Count(l, word)
  {
    Unpack(l, word);
    Unpack(l, WithClosed(l, word));
    if MayEnter(l, word) {
      WrapFits(l, word + 1);
      Unpack(l, word + 1);
    }
    if Count(l, word) > 0 {
      WrapFits(l, word - 1);
      Unpack(l, word - 1);
    }
  }

  // -------------------------------------------------------------------------
  // the inductive invariant

  ghost predicate Inv(s: State) {
    && s.layout.Valid()
    && s.word < 2 * s.layout.bit
    && Count(s.layout, s.word) == InsideCount(s)
    && (s.phase != Running ==> IsClosed(s.layout, s.word))
    && (s.phase == Quiesced ==> InsideCount(s) == 0)
  }

  lemma InvStep(s: State, a: Action)
    requires Inv(s) && Enabled(s, a)
    ensures Inv(Do(s, a))
  {
    CountArithmetic(s.layout, s.word);
    Unpack(s.layout, 0);
    var s' := Do(s, a);
    match a
    case EnterLoad(v) => TotalUpdate(s.visits, Occupies, v, s'.visits[v]);
    case EnterCas(v) => TotalUpdate(s.visits, Occupies, v, s'.visits[v]);
    case EnterCasSpurious(v) => TotalUpdate(s.visits, Occupies, v, s'.visits[v]);
    case Leave(v) =>
      TotalAtLeast(s.visits, Occupies, v);
      TotalUpdate(s.visits, Occupies, v, Gone);
    case Close =>
    case PollQuiesced =>
    case Open => Unpack(s.layout, s.layout.bit);
  }

  lemma {:induction false} InvHolds(s: State, acts: seq<Action>)
    requires Inv(s) && Exec(s, acts).Reached?
    ensures Inv(Exec(s, acts).state)
    decreases |acts|
  {
    if acts != [] {
      InvStep(s, acts[0]);
      InvHolds(Do(s, acts[0]), acts[1..]);
    }
  }

  lemma InitialInv(l: Layout)
    requires l.Valid()
    ensures Inv(Initial(l))
  {
    Unpack(l, l.bit);
  }

  // -------------------------------------------------------------------------
  // what every run keeps

  /** The count bits equal the entrants inside; a leaving entrant never underflows them. */
  lemma CountIsEntrantsInside(l: Layout, acts: seq<Action>)
    requires l.Valid() && Exec(Initial(l), acts).Reached?
    ensures var s := Exec(Initial(l), acts).state;
      && s.layout.Valid() && s.word < 2 * s.layout.bit
      && Count(s.layout, s.word) == InsideCount(s)
      && forall v :: v in s.visits && s.visits[v] == Inside ==> Count(s.layout, s.word) > 0
  {
    InitialInv(l);
    InvHolds(Initial(l), acts);
    var s := Exec(Initial(l), acts).state;
    forall v | v in s.visits && s.visits[v] == Inside ensures Count(s.layout, s.word) > 0 {
      TotalAtLeast(s.visits, Occupies, v);
    }
  }

  /** Entering and leaving keep the closed bit; only the owner's close and open move it. */
  lemma EntrantsKeepClosedBit(l: Layout, acts: seq<Action>, a: Action)
    requires l.Valid() && Exec(Initial(l), acts).Reached?
    requires Exec(Initial(l), acts).state.layout.Valid() && Enabled(Exec(Initial(l), acts).state, a)
    requires !a.Close? && !a.Open?
    ensures var s := Exec(Initial(l), acts).state;
      IsClosed(s.layout, Do(s, a).word) == IsClosed(s.layout, s.word)
  {
    InitialInv(l);
    InvHolds(Initial(l), acts);
    var s := Exec(Initial(l), acts).state;
    CountArithmetic(s.layout, s.word);
    if a.Leave? {
      TotalAtLeast(s.visits, Occupies, a.v);
    }
  }

  /** Nothing gets in while closed, however old the word an entrant remembers. */
  lemma {:induction false} ClosedAdmitsNobody(s: State, acts: seq<Action>)
    requires Inv(s) && IsClosed(s.layout, s.word)
    requires Exec(s, acts).Reached? && Exec(s, acts).state.opens == s.opens
    ensures var e := Exec(s, acts).state;
      e.entered == s.entered && e.layout == s.layout && IsClosed(e.layout, e.word) && InsideCount(e) <= InsideCount(s)
    decreases |acts|
  {
    if acts != [] {
      var a := acts[0];
      var s' := Do(s, a);
      InvStep(s, a);
      OpensMonotone(s', acts[1..]);
      CountArithmetic(s.layout, s.word);
      if a.Leave? {
        TotalAtLeast(s.visits, Occupies, a.v);
      }
      assert s'.entered == s.entered && IsClosed(s'.layout, s'.word);
      ClosedAdmitsNobody(s', acts[1..]);
    }
  }

  lemma {:induction false} OpensMonotone(s: State, acts: seq<Action>)
    requires s.layout.Valid() && Exec(s, acts).Reached?
    ensures Exec(s, acts).state.opens >= s.opens
    decreases |acts|
  {
    if acts != [] {
      OpensMonotone(Do(s, acts[0]), acts[1..]);
    }
  }

  /**
   After close-and-quiesce has returned, nobody is inside and no enter succeeds in any
   continuation of the run, until an open succeeds.
   */
  lemma QuiescedUntilOpen(l: Layout, before: seq<Action>, after: seq<Action>)
    requires l.Valid() && Exec(Initial(l), before).Reached?
    requires Exec(Initial(l), before).state.phase == Quiesced
    requires Exec(Initial(l), before).state.layout.Valid()
    requires Exec(Exec(Initial(l), before).state, after).Reached?
    requires Exec(Exec(Initial(l), before).state, after).state.opens == Exec(Initial(l), before).state.opens
    ensures var s := Exec(Initial(l), before).state;
      var e := Exec(s, after).state;
      InsideCount(s) == 0 && InsideCount(e) == 0 && e.entered == s.entered
  {
    InitialInv(l);
    InvHolds(Initial(l), before);
    ClosedAdmitsNobody(Exec(Initial(l), before).state, after);
  }

  /** An open succeeds exactly from a closed gate with nobody inside, and reopens it empty. */
  lemma OpenOnlyFromQuiesced(l: Layout, acts: seq<Action>)
    requires l.Valid() && Exec(Initial(l), acts).Reached?
    requires Exec(Initial(l), acts).state.layout.Valid()
    ensures var s := Exec(Initial(l), acts).state;
      var s' := Do(s, Open);
      && (s'.opens == s.opens + 1 <==> IsClosed(s.layout, s.word) && InsideCount(s) == 0)
      && (s'.opens == s.opens + 1 ==> !IsClosed(s'.layout, s'.word) && Count(s'.layout, s'.word) == 0)
      && (s'.opens != s.opens + 1 ==> s' == s)
  {
    InitialInv(l);
    InvHolds(Initial(l), acts);
    var s := Exec(Initial(l), acts).state;
    Unpack(s.layout, s.word);
    Unpack(s.layout, 0);
  }


  // -------------------------------------------------------------------------
  // what each call achieves when nobody interferes

  /** An enter gets in exactly if the gate is open and its count not at its maximum; else nothing changes. */
  lemma EnterExact(l: Layout, acts: seq<Action>, v: nat)
    requires l.Valid() && Exec(Initial(l), acts).Reached? && Exec(Initial(l), acts).state.layout == l
    requires v !in Exec(Initial(l), acts).state.visits
    ensures var s := Exec(Initial(l), acts).state;
      var e := Do(Do(s, EnterLoad(v)), EnterCas(v));
      var admitted := !IsClosed(l, s.word) && InsideCount(s) < l.bit - 1;
      && v in e.visits && e.visits[v] == (if admitted then Inside else Refused)
      && e.entered == s.entered + (if admitted then 1 else 0)
      && InsideCount(e) == InsideCount(s) + (if admitted then 1 else 0)
      && IsClosed(l, e.word) == IsClosed(l, s.word) && (!admitted ==> e.word == s.word)
  {
    InitialInv(l);
    InvHolds(Initial(l), acts);
    var s := Exec(Initial(l), acts).state;
    var s1 := Do(s, EnterLoad(v));
    var e := Do(s1, EnterCas(v));
    CountArithmetic(l, s.word);
    Unpack(l, s.word);
    InvStep(s, EnterLoad(v));
    TotalUpdate(s.visits, Occupies, v, s1.visits[v]);
    TotalUpdate(s1.visits, Occupies, v, e.visits[v]);
  }

  /** A leave takes one entrant out, a close sets the closed bit and keeps the entrants. */
  lemma LeaveAndCloseExact(l: Layout, acts: seq<Action>, v: nat)
    requires l.Valid() && Exec(Initial(l), acts).Reached? && Exec(Initial(l), acts).state.layout == l
    ensures var s := Exec(Initial(l), acts).state;
      && (v in s.visits && s.visits[v] == Inside ==>
            InsideCount(Do(s, Leave(v))) == InsideCount(s) - 1 && Do(s, Leave(v)).visits[v] == Gone)
      && IsClosed(l, Do(s, Close).word) && Do(s, Close).visits == s.visits && Do(s, Close).phase == Closing
  {
    InitialInv(l);
    InvHolds(Initial(l), acts);
    var s := Exec(Initial(l), acts).state;
    CountArithmetic(l, s.word);
    if v in s.visits && s.visits[v] == Inside {
      TotalUpdate(s.visits, Occupies, v, Gone);
      TotalAtLeast(s.visits, Occupies, v);
    }
  }

  /** Waiting for quiescence returns exactly when nobody is inside. */
  lemma WaitReturnsWhenEmpty(l: Layout, acts: seq<Action>)
    requires l.Valid() && Exec(Initial(l), acts).Reached?
    requires Exec(Initial(l), acts).state.layout.Valid() && Exec(Initial(l), acts).state.phase == Closing
    ensures var s := Exec(Initial(l), acts).state;
      && (Enabled(s, PollQuiesced) <==> InsideCount(s) == 0)
      && (Enabled(s, PollQuiesced) ==> Do(s, PollQuiesced).phase == Quiesced && Do(s, PollQuiesced).word == s.word)
  {
    InitialInv(l);
    InvHolds(Initial(l), acts);
  }
}
