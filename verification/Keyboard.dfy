/** The keyboard queue: a ring buffer filled by the interrupt handler and drained by
    a reader, both taken apart into steps that may interleave in any order. */
module Keyboard {

  const SIZE: nat := 256

  /** Where the reader stands in `keyboard_get_char`. */
  datatype Reader = Waiting | Tested | Loaded(c: int)

  /** Where the handler stands in its enqueue part. */
  datatype Handler = Idle | HasRoom(key: int) | Stored(key: int)

  /** The shared variables, both program counters, and the history: characters put
      into the queue, characters returned by the reader, characters dropped. */
  datatype State = State(buffer: seq<int>, readPos: nat, writePos: nat, reader: Reader, handler: Handler,
                         accepted: seq<int>, delivered: seq<int>, dropped: seq<int>)

  datatype Action = Key(c: int) | HandlerStore | HandlerAdvance | ReaderTest | ReaderLoad | ReaderAdvance

  function Next(pos: nat): (r: nat) { (pos + 1) % SIZE }

  /** An action whose program counter does not stand at it does nothing. */
  function Step(s: State, a: Action): (s': State)
    requires |s.buffer| == SIZE && s.readPos < SIZE && s.writePos < SIZE
    ensures |s'.buffer| == SIZE && s'.readPos < SIZE && s'.writePos < SIZE
  {
    match a
    case Key(c) =>
      if s.handler != Idle || c == 0 then s
      else if Next(s.writePos) != s.readPos then s.(handler := HasRoom(c))
      else s.(dropped := s.dropped + [c])
    case HandlerStore =>
      if s.handler.HasRoom? then s.(buffer := s.buffer[s.writePos := s.handler.key], handler := Stored(s.handler.key)) else s
    case HandlerAdvance =>
      if s.handler.Stored? then
        s.(writePos := Next(s.writePos), handler := Idle, accepted := s.accepted + [s.handler.key])
      else s
    case ReaderTest =>
      if s.reader == Waiting && s.readPos != s.writePos then s.(reader := Tested) else s
    case ReaderLoad =>
      if s.reader == Tested then s.(reader := Loaded(s.buffer[s.readPos])) else s
    case ReaderAdvance =>
      if s.reader.Loaded? then
        s.(readPos := Next(s.readPos), reader := Waiting, delivered := s.delivered + [s.reader.c])
      else s
  }

  ghost predicate Initial(s: State) {
    && |s.buffer| == SIZE && s.readPos == 0 && s.writePos == 0 && s.reader == Waiting && s.handler == Idle
    && s.accepted == [] && s.delivered == [] && s.dropped == []
  }

  function Run(s: State, actions: seq<Action>): (s': State)
    requires |s.buffer| == SIZE && s.readPos < SIZE && s.writePos < SIZE
    ensures |s'.buffer| == SIZE && s'.readPos < SIZE && s'.writePos < SIZE
  {
    if actions == [] then s else Step(Run(s, actions[..|actions| - 1]), actions[|actions| - 1])
  }

  /** Characters in the queue. */
  function Pending(s: State): (n: int) { |s.accepted| - |s.delivered| }

  ghost predicate Inv(s: State) {
    && |s.buffer| == SIZE
    && s.readPos == |s.delivered| % SIZE && s.writePos == |s.accepted| % SIZE
    && s.delivered <= s.accepted && Pending(s) < SIZE
    && (forall k: nat :: |s.delivered| <= k < |s.accepted| ==> s.buffer[k % SIZE] == s.accepted[k])
    && (s.reader.Tested? ==> Pending(s) > 0)
    && (s.reader.Loaded? ==> Pending(s) > 0 && s.reader.c == s.accepted[|s.delivered|])
    && (!s.handler.Idle? ==> Pending(s) < SIZE - 1)
    && (s.handler.Stored? ==> s.buffer[s.writePos] == s.handler.key)
  }

  /** Two positions in the stream share a slot only when a whole lap apart. */
  lemma SlotsDiffer(i: nat, j: nat)
    requires i < j < i + SIZE
    ensures i % SIZE != j % SIZE
  {
  }

  lemma FullExactly(s: State)
    requires Inv(s)
    ensures Next(s.writePos) == s.readPos <==> Pending(s) == SIZE - 1
    ensures s.readPos == s.writePos <==> Pending(s) == 0
  {
  }

  lemma StoreKeepsInv(s: State)
    requires Inv(s) && s.handler.HasRoom?
    ensures Inv(Step(s, HandlerStore))
  {
    var s' := Step(s, HandlerStore);
    forall k: nat | |s'.delivered| <= k < |s'.accepted|
      ensures s'.buffer[k % SIZE] == s'.accepted[k]
    {
      SlotsDiffer(k, |s.accepted|);
    }
  }

  lemma AdvanceKeepsInv(s: State)
    requires Inv(s) && s.handler.Stored?
    ensures Inv(Step(s, HandlerAdvance))
  {
    var s' := Step(s, HandlerAdvance);
    NextSlot(|s.accepted|);
    forall k: nat | |s'.delivered| <= k < |s'.accepted|
      ensures s'.buffer[k % SIZE] == s'.accepted[k]
    {
      if k < |s.accepted| {
        assert s.buffer[k % SIZE] == s.accepted[k];
      }
    }
  }

  lemma NextSlot(n: nat)
    ensures Next(n % SIZE) == (n + 1) % SIZE
  {
  }

  lemma KeyKeepsInv(s: State, c: int)
    requires Inv(s)
    ensures Inv(Step(s, Key(c)))
  {
    FullExactly(s);
  }

  lemma LoadKeepsInv(s: State)
    requires Inv(s) && s.reader.Tested?
    ensures Inv(Step(s, ReaderLoad))
  {
    assert s.buffer[|s.delivered| % SIZE] == s.accepted[|s.delivered|];
  }

  lemma ReadKeepsInv(s: State)
    requires Inv(s) && s.reader.Loaded?
    ensures Inv(Step(s, ReaderAdvance))
  {
    NextSlot(|s.delivered|);
  }

  lemma TestKeepsInv(s: State)
    requires Inv(s)
    ensures Inv(Step(s, ReaderTest))
  {
    FullExactly(s);
  }

  lemma StepKeepsInv(s: State, a: Action)
    requires Inv(s)
    ensures Inv(Step(s, a))
  {
    match a
    case Key(c) => KeyKeepsInv(s, c);
    case HandlerStore => if s.handler.HasRoom? { StoreKeepsInv(s); }
    case HandlerAdvance => if s.handler.Stored? { AdvanceKeepsInv(s); }
    case ReaderTest => TestKeepsInv(s);
    case ReaderLoad => if s.reader.Tested? { LoadKeepsInv(s); }
    case ReaderAdvance => if s.reader.Loaded? { ReadKeepsInv(s); }
  }

  /** The handler never writes the slot the reader is about to load or is returning. */
  lemma NeverOverwritesReadSlot(s: State)
    requires Inv(s) && !s.reader.Waiting? && s.handler.HasRoom?
    ensures s.writePos != s.readPos
    ensures Step(s, HandlerStore).buffer[s.readPos] == s.buffer[s.readPos]
  {
    SlotsDiffer(|s.delivered|, |s.accepted|);
  }

  /** A key is dropped exactly when 255 characters are pending. */
  lemma DroppedExactlyWhenFull(s: State, c: int)
    requires Inv(s) && s.handler.Idle? && c != 0
    ensures Step(s, Key(c)).dropped != s.dropped <==> Pending(s) == SIZE - 1
  {
    FullExactly(s);
  }

  lemma {:induction false} RunKeepsInv(s: State, actions: seq<Action>)
    requires Inv(s)
    ensures Inv(Run(s, actions))
  {
    if actions != [] {
      RunKeepsInv(s, actions[..|actions| - 1]);
      StepKeepsInv(Run(s, actions[..|actions| - 1]), actions[|actions| - 1]);
    }
  }

  // ----- where accepted characters come from

  ghost predicate PicksUp(s: State, a: Action) {
    a.Key? && a.c != 0 && s.handler.Idle?
  }

  /** The keys of a run that reach the enqueue part while fewer than 255 characters
      are pending, in the order they were typed. */
  ghost function Admitted(s: State, actions: seq<Action>): (keys: seq<int>)
    requires |s.buffer| == SIZE && s.readPos < SIZE && s.writePos < SIZE
  {
    if actions == [] then []
    else
      var pre, a := actions[..|actions| - 1], actions[|actions| - 1];
      Admitted(s, pre) + if PicksUp(Run(s, pre), a) && Pending(Run(s, pre)) < 255 then [a.c] else []
  }

  /** The keys that reach it while 255 are pending. */
  ghost function Refused(s: State, actions: seq<Action>): (keys: seq<int>)
    requires |s.buffer| == SIZE && s.readPos < SIZE && s.writePos < SIZE
  {
    if actions == [] then []
    else
      var pre, a := actions[..|actions| - 1], actions[|actions| - 1];
      Refused(s, pre) + if PicksUp(Run(s, pre), a) && Pending(Run(s, pre)) == 255 then [a.c] else []
  }

  function InFlight(h: Handler): (keys: seq<int>) {
    match h
    case Idle => []
    case HasRoom(c) => [c]
    case Stored(c) => [c]
  }

  lemma StepAdmits(s: State, a: Action)
    requires Inv(s)
    ensures Step(s, a).accepted + InFlight(Step(s, a).handler) ==
            s.accepted + InFlight(s.handler) + if PicksUp(s, a) && Pending(s) < 255 then [a.c] else []
    ensures Step(s, a).dropped == s.dropped + if PicksUp(s, a) && Pending(s) == 255 then [a.c] else []
  {
    FullExactly(s);
  }

  /** No key is lost, duplicated or reordered: the accepted characters, with the one
      the handler is working on, are the admitted keys in typing order, and the
      dropped ones are those typed while 255 were pending. */
  lemma {:induction false} KeysConserved(s: State, actions: seq<Action>)
    requires Initial(s)
    ensures Run(s, actions).accepted + InFlight(Run(s, actions).handler) == Admitted(s, actions)
    ensures Run(s, actions).dropped == Refused(s, actions)
  {
    if actions != [] {
      var pre := actions[..|actions| - 1];
      KeysConserved(s, pre);
      RunKeepsInv(s, pre);
      StepAdmits(Run(s, pre), actions[|actions| - 1]);
    }
  }

  /** Over every interleaving: what has been read is a prefix, in order, of what was
      accepted, and at most 255 characters are pending. */
  lemma QueueIsSafe(s: State, actions: seq<Action>)
    requires Initial(s)
    ensures var e := Run(s, actions); e.delivered <= e.accepted && 0 <= Pending(e) <= 255
  {
    RunKeepsInv(s, actions);
  }

  // ----- draining

  const READ: seq<Action> := [ReaderTest, ReaderLoad, ReaderAdvance]

  function Reads(n: nat): (actions: seq<Action>) {
    if n == 0 then [] else Reads(n - 1) + READ
  }

  lemma RunSnoc(s: State, actions: seq<Action>, a: Action)
    requires |s.buffer| == SIZE && s.readPos < SIZE && s.writePos < SIZE
    ensures Run(s, actions + [a]) == Step(Run(s, actions), a)
  {
    assert (actions + [a])[..|actions|] == actions;
  }

  lemma RunRead(s: State, actions: seq<Action>)
    requires |s.buffer| == SIZE && s.readPos < SIZE && s.writePos < SIZE
    ensures Run(s, actions + READ) == Step(Step(Step(Run(s, actions), ReaderTest), ReaderLoad), ReaderAdvance)
  {
    RunSnoc(s, actions, ReaderTest);
    RunSnoc(s, actions + [ReaderTest], ReaderLoad);
    RunSnoc(s, actions + [ReaderTest] + [ReaderLoad], ReaderAdvance);
    assert actions + [ReaderTest] + [ReaderLoad] + [ReaderAdvance] == actions + READ;
  }

  /** One call of the reader on a non-empty queue returns the oldest character. */
  lemma ReadOne(s: State)
    requires Inv(s) && s.reader.Waiting? && Pending(s) > 0
    ensures var e := Step(Step(Step(s, ReaderTest), ReaderLoad), ReaderAdvance);
            Inv(e) && e.reader.Waiting? && e.accepted == s.accepted && e.delivered == s.delivered + [s.accepted[|s.delivered|]]
  {
    FullExactly(s);
    StepKeepsInv(s, ReaderTest);
    StepKeepsInv(Step(s, ReaderTest), ReaderLoad);
    StepKeepsInv(Step(Step(s, ReaderTest), ReaderLoad), ReaderAdvance);
  }

  /** Reading as often as characters are pending delivers all of them. */
  lemma {:induction false} DrainDelivers(s: State, n: nat)
    requires Inv(s) && s.reader.Waiting? && n <= Pending(s)
    ensures var e := Run(s, Reads(n));
            Inv(e) && e.reader.Waiting? && e.accepted == s.accepted && e.delivered == s.accepted[..|s.delivered| + n]
  {
    hide Step;
    if n > 0 {
      DrainDelivers(s, n - 1);
      var e := Run(s, Reads(n - 1));
      RunRead(s, Reads(n - 1));
      ReadOne(e);
    }
  }

  // ----- reading a line

  const NEWLINE: int := 10
  const BACKSPACE: int := 8

  /** Bytes kept in a line: printable ASCII and the extended characters. */
  predicate Printable(c: int) { 32 <= c <= 126 || 128 <= c }

  /** The effect of one key other than newline on the line so far. */
  function EditKey(line: seq<int>, c: int): (r: seq<int>) {
    if c == BACKSPACE then (if line == [] then [] else line[..|line| - 1])
    else if Printable(c) then line + [c]
    else line
  }

  /** The line left by a sequence of keys without newline. */
  ghost function Edit(keys: seq<int>): (line: seq<int>) {
    if keys == [] then [] else EditKey(Edit(keys[..|keys| - 1]), keys[|keys| - 1])
  }

  lemma EditSnoc(keys: seq<int>, c: int)
    ensures Edit(keys + [c]) == EditKey(Edit(keys), c)
  {
    assert (keys + [c])[..|keys|] == keys;
  }

  /** What follows depends on the line so far only. */
  lemma {:induction false} EditFrom(a: seq<int>, a': seq<int>, b: seq<int>)
    requires Edit(a) == Edit(a')
    ensures Edit(a + b) == Edit(a' + b)
  {
    hide Edit;
    if b == [] {
      assert a + b == a && a' + b == a';
    } else {
      var pre, last := b[..|b| - 1], b[|b| - 1];
      EditFrom(a, a', pre);
      EditSnoc(a + pre, last);
      EditSnoc(a' + pre, last);
      assert a + b == a + pre + [last] && a' + b == a' + pre + [last];
    }
  }

  /** Keys from the space to the tilde are the line. */
  lemma {:induction false} TypedIsLine(keys: seq<int>)
    requires forall c :: c in keys ==> 32 <= c <= 126
    ensures Edit(keys) == keys
  {
    if keys != [] {
      var init, last := keys[..|keys| - 1], keys[|keys| - 1];
      assert last in keys && forall c :: c in init ==> c in keys;
      TypedIsLine(init);
      assert keys == init + [last];
    }
  }

  /** Other keys leave no trace, and neither does a backspace with nothing before it. */
  lemma OtherKeysIgnored(a: seq<int>, c: int, b: seq<int>)
    requires (c < 32 && c != 8) || c == 127
    ensures Edit(a + [c] + b) == Edit(a + b) && Edit([8] + b) == Edit(b)
  {
    var none: seq<int> := [];
    assert Edit(none) == [];
    hide Edit;
    EditSnoc(a, c);
    EditFrom(a + [c], a, b);
    EditSnoc(none, 8);
    assert none + [8] == [8] && none + b == b;
    EditFrom([8], none, b);
  }

  /** A typed character and a backspace cancel out wherever they occur. */
  lemma BackspaceCancels(a: seq<int>, c: int, b: seq<int>)
    requires 32 <= c <= 126 || 128 <= c
    ensures Edit(a + [c] + [8] + b) == Edit(a + b)
  {
    hide Edit;
    EditSnoc(a, c);
    EditSnoc(a + [c], 8);
    EditFrom(a + [c] + [8], a, b);
  }

  /** The keys `input[..used]` make a finished line of fewer than `maxLen` characters,
      and no shorter stretch of the input does. */
  ghost predicate FinishesAt(input: seq<int>, used: nat, maxLen: nat)
    requires used <= |input|
  {
    && (|Edit(LineKeys(input, used))| == maxLen - 1 || (used > 0 && input[used - 1] == NEWLINE))
    && forall k: nat :: k < used ==> |Edit(input[..k])| < maxLen - 1 && (k + 1 < used ==> input[k] != NEWLINE)
  }

  /** The keys before the newline that ends the line, if one does. */
  ghost function LineKeys(input: seq<int>, used: nat): (keys: seq<int>)
    requires used <= |input|
  {
    if used > 0 && input[used - 1] == NEWLINE then input[..used - 1] else input[..used]
  }

  ghost predicate NoLineYet(input: seq<int>, n: nat) {
    n <= |input| && NEWLINE !in input[..n]
  }

  ghost predicate ShortUpTo(input: seq<int>, n: nat, maxLen: nat) {
    n <= |input| + 1 && forall k: nat :: k < n ==> |Edit(input[..k])| < maxLen - 1
  }

  lemma LineGoesOn(input: seq<int>, n: nat, maxLen: nat)
    requires NoLineYet(input, n) && ShortUpTo(input, n, maxLen) && n < |input|
    ensures |Edit(input[..n])| < maxLen - 1 ==> ShortUpTo(input, n + 1, maxLen)
    ensures input[n] != NEWLINE ==> NoLineYet(input, n + 1)
  {
    hide Edit;
    assert input[..n + 1] == input[..n] + [input[n]];
  }

  lemma LineEnds(input: seq<int>, used: nat, n: nat, maxLen: nat)
    requires n <= used <= n + 1 && used <= |input| && (n < used ==> input[n] == NEWLINE)
    requires NoLineYet(input, n) && ShortUpTo(input, used, maxLen) && |Edit(input[..n])| <= maxLen - 1
    ensures n < used || |Edit(input[..n])| == maxLen - 1 ==>
              LineKeys(input, used) == input[..n] && FinishesAt(input, used, maxLen)
    ensures n == used == |input| && |Edit(input[..n])| < maxLen - 1 ==>
              NEWLINE !in input && forall k: nat :: k <= used ==> |Edit(input[..k])| < maxLen - 1
  {
    hide Edit;
    assert forall k :: 0 <= k < n ==> input[k] == input[..n][k];
    assert n == |input| ==> input[..n] == input;
  }

  /** Reads keys in order until a newline or a full buffer.  `done` is false when the
      input given so far does not finish a line: the reader then waits for more. */
  method ReadLine(input: seq<int>, buffer: array<int>, maxLen: nat) returns (used: nat, done: bool)
    requires 0 < maxLen <= buffer.Length
    modifies buffer
    ensures used <= |input|
    ensures done ==> FinishesAt(input, used, maxLen)
    ensures done ==> var line := Edit(LineKeys(input, used));
                     |line| < maxLen && buffer[..|line|] == line && buffer[|line|] == 0
    ensures !done ==> used == |input| && forall k: nat :: k <= used ==> |Edit(input[..k])| < maxLen - 1
    ensures !done ==> NEWLINE !in input
  {
    var pos: nat, ended: bool := 0, false;
    used := 0;
    ghost var n: nat := 0;
    assert Edit(input[..0]) == [];
    hide Edit;
    hide EditKey;
    hide FinishesAt;
    hide LineKeys;
    hide NoLineYet;
    hide ShortUpTo;
    while !ended && pos < maxLen - 1 && used < |input|
      invariant used <= |input| && pos < maxLen
      invariant n <= used <= n + 1 && (ended <==> n < used) && (ended ==> input[n] == NEWLINE)
      invariant NoLineYet(input, n) && ShortUpTo(input, used, maxLen)
      invariant buffer[..pos] == Edit(input[..n])
      decreases |input| - used
    {
      var c := input[used];
      LineGoesOn(input, used, maxLen);
      if c == NEWLINE {
        ended := true;
      } else {
        pos := EditInPlace(input[..used], c, buffer, pos);
        assert input[..used + 1] == input[..used] + [c];
        n := n + 1;
      }
      used := used + 1;
    }
    done := ended || pos == maxLen - 1;
    LineEnds(input, used, n, maxLen);
    if done {
      ghost var line := buffer[..pos];
      buffer[pos] := 0;
      assert buffer[..pos] == line;
    }
  }

  /** One key applied to the line in the buffer. */
  method EditInPlace(ghost keys: seq<int>, c: int, buffer: array<int>, pos: nat) returns (pos': nat)
    requires pos < buffer.Length && buffer[..pos] == Edit(keys)
    modifies buffer
    ensures pos' <= pos + 1 && buffer[..pos'] == Edit(keys + [c])
  {
    EditSnoc(keys, c);
    pos' := pos;
    if c == BACKSPACE {
      if pos > 0 {
        pos' := pos - 1;
      }
    } else if Printable(c) {
      buffer[pos] := c;
      pos' := pos + 1;
    }
  }
}
