/**
  One producer and one consumer on a ring buffer, their calls split into single loads and stores
  that interleave in any way. Loads and stores take effect in program order, one at a time.
 */
module I2sInterleaved {
  import opened Bits
  import opened I2sRing
  import opened Sequences

  // Where a push is: not running, after loading the tail, after finding room, after storing the
  // byte. Storing the tail ends it.
  datatype Producer =
    Resting | Loaded(data: Byte, next: nat) | Room(data: Byte, next: nat) | Stored(data: Byte, next: nat)

  // Where a pop is: not running, after loading the head, after finding a byte, after loading it.
  // Storing the head ends it.
  datatype Consumer = Waiting | Looking(head: nat) | Ready | Taken(data: Byte)

  // The shared memory, both calls, and what pushes and pops that returned true have moved.
  datatype State = State(buffer: seq<Byte>, head: nat, tail: nat, producer: Producer, consumer: Consumer,
                         pushed: seq<Byte>, popped: seq<Byte>)
  {
    ghost predicate Bounded() {
      head < |buffer| && tail < |buffer|
    }
  }

  datatype Action = BeginPush(data: Byte) | Produce | BeginPop | Consume

  function Init(buffer: seq<Byte>): State {
    State(buffer, 0, 0, Resting, Waiting, [], [])
  }

  function Produced(s: State): State
    requires s.Bounded()
  {
    match s.producer
    case Resting => s
    case Loaded(d, next) => s.(producer := if next != s.head then Room(d, next) else Resting)
    case Room(d, next) => s.(buffer := s.buffer[s.tail := d], producer := Stored(d, next))
    case Stored(d, next) => s.(tail := next, producer := Resting, pushed := s.pushed + [d])
  }

  function Consumed(s: State): State
    requires s.Bounded()
  {
    match s.consumer
    case Waiting => s
    case Looking(head) => s.(consumer := if head == s.tail then Waiting else Ready)
    case Ready => s.(consumer := Taken(s.buffer[s.head]))
    case Taken(d) => s.(head := (s.head + 1) % |s.buffer|, consumer := Waiting, popped := s.popped + [d])
  }

  function Step(s: State, a: Action): State
    requires s.Bounded()
  {
    match a
    case BeginPush(d) => if s.producer.Resting? then s.(producer := Loaded(d, (s.tail + 1) % |s.buffer|)) else s
    case Produce => Produced(s)
    case BeginPop => if s.consumer.Waiting? then s.(consumer := Looking(s.head)) else s
    case Consume => Consumed(s)
  }

  // What every interleaving keeps: the slots from head to tail hold exactly the bytes pushed and
  // not yet popped, and each side's view of the other is out of date only on the safe side.
  ghost predicate Inv(s: State) {
    && s.Bounded()
    && s.pushed == s.popped + Held(s.buffer, s.head, s.tail)
    && (!s.producer.Resting? ==> s.producer.next == Next(s.tail, |s.buffer|))
    && (s.producer.Room? || s.producer.Stored? ==> Next(s.tail, |s.buffer|) != s.head)
    && (s.producer.Stored? ==> s.buffer[s.tail] == s.producer.data)
    && (s.consumer.Looking? ==> s.consumer.head == s.head)
    && (s.consumer.Ready? || s.consumer.Taken? ==> s.head != s.tail)
    && (s.consumer.Taken? ==> s.buffer[s.head] == s.consumer.data)
  }

  function Run(s: State, actions: seq<Action>): State
    requires Inv(s)
    decreases |actions|
  {
    if actions == [] then s
    else
      StepKeeps(s, actions[0]);
      Run(Step(s, actions[0]), actions[1..])
  }

  lemma HeldIgnores(buffer: seq<Byte>, head: nat, tail: nat, b: Byte)
    requires head < |buffer| && tail < |buffer|
    ensures Held(buffer[tail := b], head, tail) == Held(buffer, head, tail)
  {
  }

  lemma ProducedKeeps(s: State)
    requires Inv(s)
    ensures Inv(Produced(s)) && |Produced(s).buffer| == |s.buffer|
  {
    hide Held;
    match s.producer {
      case Resting =>
      case Loaded(_, _) =>
      case Room(d, _) => HeldIgnores(s.buffer, s.head, s.tail, d);
      case Stored(d, _) =>
        HeldAppend(s.buffer, s.head, s.tail, d);
        assert s.buffer[s.tail := d] == s.buffer;
        Regroup(s.popped, Held(s.buffer, s.head, s.tail), [d]);
        NextIsModulo(s.tail, |s.buffer|);
    }
  }

  lemma ConsumedKeeps(s: State)
    requires Inv(s)
    ensures Inv(Consumed(s)) && |Consumed(s).buffer| == |s.buffer|
  {
    hide Held;
    if s.consumer.Taken? {
      HeldFirst(s.buffer, s.head, s.tail);
      NextIsModulo(s.head, |s.buffer|);
      Regroup(s.popped, [s.consumer.data], Held(s.buffer, Next(s.head, |s.buffer|), s.tail));
    }
  }

  lemma StepKeeps(s: State, a: Action)
    requires Inv(s)
    ensures Inv(Step(s, a)) && |Step(s, a).buffer| == |s.buffer|
  {
    hide Held;
    match a {
      case BeginPush(_) => NextIsModulo(s.tail, |s.buffer|);
      case Produce => ProducedKeeps(s);
      case BeginPop =>
      case Consume => ConsumedKeeps(s);
    }
  }

  lemma {:induction false} RunKeeps(s: State, actions: seq<Action>)
    requires Inv(s)
    ensures Inv(Run(s, actions)) && |Run(s, actions).buffer| == |s.buffer|
    decreases |actions|
  {
    hide Step, Held;
    if actions != [] {
      StepKeeps(s, actions[0]);
      RunKeeps(Step(s, actions[0]), actions[1..]);
    }
  }

  lemma InitHolds(buffer: seq<Byte>)
    requires buffer != []
    ensures Inv(Init(buffer))
  {
  }

  // The main result, for every interleaving: bytes come out in the order they went in, none
  // lost, none twice, and at most size - 1 are held.
  lemma {:induction false} FirstInFirstOut(buffer: seq<Byte>, actions: seq<Action>)
    requires buffer != []
    ensures Inv(Init(buffer))
    ensures var s := Run(Init(buffer), actions);
            && s.Bounded() && s.popped <= s.pushed
            && |s.pushed| - |s.popped| <= |buffer| - 1
            && s.pushed[|s.popped|..] == Held(s.buffer, s.head, s.tail)
  {
    InitHolds(buffer);
    RunKeeps(Init(buffer), actions);
    var s := Run(Init(buffer), actions);
    HeldAt(s.buffer, s.head, s.tail);
  }

  // In every interleaving the slot a push is about to write holds no unread byte, and is not the
  // slot a pop is about to read.
  lemma {:induction false} NeverOverwrites(buffer: seq<Byte>, actions: seq<Action>, k: nat)
    requires buffer != []
    ensures Inv(Init(buffer))
    ensures var s := Run(Init(buffer), actions);
            && s.Bounded()
            && (s.producer.Room? && k < |Held(s.buffer, s.head, s.tail)| ==> After(s.head, k, |s.buffer|) != s.tail)
            && (s.producer.Room? && s.consumer.Ready? ==> s.head != s.tail)
  {
    InitHolds(buffer);
    RunKeeps(Init(buffer), actions);
    var s := Run(Init(buffer), actions);
    HeldAt(s.buffer, s.head, s.tail);
  }

  // A push is refused exactly when the buffer is full at the moment it loads the head, a pop
  // exactly when it is empty at the moment it loads the tail.
  lemma {:induction false} RefusedOnlyWhenSo(buffer: seq<Byte>, actions: seq<Action>)
    requires buffer != []
    ensures Inv(Init(buffer))
    ensures var s := Run(Init(buffer), actions);
            && s.Bounded()
            && (s.producer.Loaded? ==>
                  (Step(s, Produce).producer.Resting? <==> |s.pushed| - |s.popped| == |buffer| - 1))
            && (s.consumer.Looking? ==>
                  (Step(s, Consume).consumer.Waiting? <==> s.pushed == s.popped))
  {
    InitHolds(buffer);
    RunKeeps(Init(buffer), actions);
    var s := Run(Init(buffer), actions);
    HeldAt(s.buffer, s.head, s.tail);
  }

  // Between two actions of one side the other can only help: room stays room, a byte stays a byte.
  lemma {:induction false} RoomLasts(s: State, actions: seq<Action>)
    requires Inv(s) && forall a :: a in actions ==> a.BeginPop? || a.Consume?
    ensures var t := Run(s, actions);
            && t.producer == s.producer && t.tail == s.tail && t.pushed == s.pushed
            && s.popped <= t.popped
    decreases |actions|
  {
    hide Held;
    if actions != [] {
      StepKeeps(s, actions[0]);
      var next := Step(s, actions[0]);
      assert actions[0].BeginPop? || actions[0].Consume?;
      RoomLasts(next, actions[1..]);
      assert Run(s, actions) == Run(next, actions[1..]);
      PrefixOfPrefix(s.popped, next.popped, Run(s, actions).popped);
    }
  }

  lemma {:induction false} ByteLasts(s: State, actions: seq<Action>)
    requires Inv(s) && forall a :: a in actions ==> a.BeginPush? || a.Produce?
    ensures var t := Run(s, actions);
            && t.consumer == s.consumer && t.head == s.head && t.popped == s.popped
            && s.pushed <= t.pushed
    decreases |actions|
  {
    hide Held;
    if actions != [] {
      StepKeeps(s, actions[0]);
      var next := Step(s, actions[0]);
      ByteLasts(next, actions[1..]);
      PrefixOfPrefix(s.pushed, next.pushed, Run(s, actions).pushed);
    }
  }

  // Undisturbed, the steps of a push and of a pop do what the methods of the buffer promise.
  lemma PushAlone(s: State, d: Byte)
    requires Inv(s) && s.producer.Resting?
    ensures var held := Held(s.buffer, s.head, s.tail);
            var room := |held| < |s.buffer| - 1;
            var t := Produced(Produced(Produced(Step(s, BeginPush(d)))));
            && Inv(t) && t.producer.Resting? && t.consumer == s.consumer && t.popped == s.popped
            && t.pushed == (if room then s.pushed + [d] else s.pushed)
            && Held(t.buffer, t.head, t.tail) == (if room then held + [d] else held)
  {
    hide Held;
    HeldAt(s.buffer, s.head, s.tail);
    var one := Step(s, BeginPush(d));
    StepKeeps(s, BeginPush(d));
    ProducedKeeps(one);
    var two := Produced(one);
    ProducedKeeps(two);
    var three := Produced(two);
    ProducedKeeps(three);
    var room := |Held(s.buffer, s.head, s.tail)| < |s.buffer| - 1;
    assert room <==> two.producer.Room?;
    var t := Produced(three);
    if room {
      Regroup(s.popped, Held(s.buffer, s.head, s.tail), [d]);
      Cancel(s.popped, Held(t.buffer, t.head, t.tail), Held(s.buffer, s.head, s.tail) + [d]);
    }
  }

  lemma PopAlone(s: State)
    requires Inv(s) && s.consumer.Waiting?
    ensures var held := Held(s.buffer, s.head, s.tail);
            var t := Consumed(Consumed(Consumed(Step(s, BeginPop))));
            && Inv(t) && t.consumer.Waiting? && t.producer == s.producer && t.pushed == s.pushed
            && t.popped == (if held == [] then s.popped else s.popped + held[..1])
            && Held(t.buffer, t.head, t.tail) == (if held == [] then held else held[1..])
  {
    hide Held;
    HeldAt(s.buffer, s.head, s.tail);
    var one := Step(s, BeginPop);
    StepKeeps(s, BeginPop);
    ConsumedKeeps(one);
    var two := Consumed(one);
    ConsumedKeeps(two);
    var three := Consumed(two);
    ConsumedKeeps(three);
    assert two.consumer.Ready? <==> Held(s.buffer, s.head, s.tail) != [];
    if two.consumer.Ready? {
      HeldFirst(s.buffer, s.head, s.tail);
      NextIsModulo(s.head, |s.buffer|);
    }
  }
}
