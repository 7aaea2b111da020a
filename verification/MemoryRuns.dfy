/** Whole runs of VMread and VMwrite calls: what a client of Ex04 sees is a flat memory. */
module MemoryRuns {
  import opened Wrappers
  import opened Arithmetic
  import opened MemoryConstants
  import opened FlatView
  import opened PageFault
  import opened PhysicalMemory
  import opened VirtualMemory

  datatype Call = ReadCall(va: nat) | WriteCall(va: nat, value: Word)

  type PageView = map<nat, seq<Word>>

  /** The value most recently written to an address. */
  function LastWritten(calls: seq<Call>, va: nat): Option<Word> {
    if calls == [] then None
    else
      var call := calls[|calls| - 1];
      if call.WriteCall? && call.va == va then Some(call.value) else LastWritten(calls[..|calls| - 1], va)
  }

  /** What a flat memory holds at va after the calls, when it held first[va] initially. */
  ghost predicate Holds(first: map<nat, Word>, calls: seq<Call>, va: nat, value: Word) {
    match LastWritten(calls, va)
    case Some(w) => value == w
    case None => va in first && value == first[va]
  }

  /** The answer a flat memory gives to a call after the earlier ones. */
  ghost predicate FlatAnswer(c: Config, first: map<nat, Word>, before: seq<Call>, call: Call, answer: Option<Word>) {
    if call.va >= c.VirtualSize() then answer == None
    else match call
      case WriteCall(_, value) => answer == Some(value)
      case ReadCall(va) => answer.Some? && Holds(first, before, va, answer.value)
  }

  ghost predicate AgreesAt(c: Config, v: PageView, first: map<nat, Word>, calls: seq<Call>, va: nat) {
    if Quot(va, c.P()) in v then
      && va in first && Rem(va, c.P()) < |v[Quot(va, c.P())]|
      && Holds(first, calls, va, v[Quot(va, c.P())][Rem(va, c.P())])
    else
      va !in first && LastWritten(calls, va) == None
  }

  /** Every touched page holds what the flat memory holds; untouched pages have not been written. */
  ghost predicate Agrees(c: Config, v: PageView, first: map<nat, Word>, calls: seq<Call>) {
    forall va: nat {:trigger AgreesAt(c, v, first, calls, va)} | va < c.VirtualSize() ::
      AgreesAt(c, v, first, calls, va)
  }

  ghost predicate Extends(first: map<nat, Word>, first': map<nat, Word>) {
    forall va | va in first :: va in first' && first'[va] == first[va]
  }

  ghost predicate FullPages(c: Config, v: PageView) {
    forall page | page in v :: |v[page]| == c.P()
  }

  /** The initial contents become known page by page, at the first touch. */
  ghost function Discover(c: Config, v: PageView, v': PageView, first: map<nat, Word>, page: nat): map<nat, Word>
    requires page in v' && FullPages(c, v')
  {
    if page in v then first
    else first + map va: nat | va < c.VirtualSize() && Quot(va, c.P()) == page :: v'[page][Rem(va, c.P())]
  }

  lemma AddCall(calls: seq<Call>, call: Call, va: nat)
    ensures LastWritten(calls + [call], va)
            == if call.WriteCall? && call.va == va then Some(call.value) else LastWritten(calls, va)
  {
    assert (calls + [call])[..|calls|] == calls;
  }

  lemma DiscoverExtends(c: Config, v: PageView, v': PageView, first: map<nat, Word>, calls: seq<Call>, page: nat)
    requires Agrees(c, v, first, calls) && page in v' && FullPages(c, v')
    requires forall va | va in first :: va < c.VirtualSize()
    ensures Extends(first, Discover(c, v, v', first, page))
    ensures forall va | va in Discover(c, v, v', first, page) :: va < c.VirtualSize()
  {
    forall va | va in first
      ensures Quot(va, c.P()) in v
    {
      assert AgreesAt(c, v, first, calls, va);
    }
  }

  lemma AgreesAfterRead(c: Config, v: PageView, v': PageView, first: map<nat, Word>, calls: seq<Call>,
                        at: nat, value: Word)
    requires Agrees(c, v, first, calls) && at < c.VirtualSize() && FullPages(c, v')
    requires Read(v, v', Quot(at, c.P()), Rem(at, c.P()), value)
    ensures var first' := Discover(c, v, v', first, Quot(at, c.P()));
            && Agrees(c, v', first', calls + [ReadCall(at)])
            && Holds(first', calls, at, value)
  {
    var page := Quot(at, c.P());
    var first' := Discover(c, v, v', first, page);
    forall va: nat {:trigger AgreesAt(c, v', first', calls + [ReadCall(at)], va)} | va < c.VirtualSize()
      ensures AgreesAt(c, v', first', calls, va) && AgreesAt(c, v', first', calls + [ReadCall(at)], va)
    {
      assert AgreesAt(c, v, first, calls, va);
      AddCall(calls, ReadCall(at), va);
    }
    assert AgreesAt(c, v', first', calls + [ReadCall(at)], at);
    AddCall(calls, ReadCall(at), at);
  }

  lemma AgreesAfterWrite(c: Config, v: PageView, v': PageView, first: map<nat, Word>, calls: seq<Call>,
                         at: nat, value: Word)
    requires Agrees(c, v, first, calls) && at < c.VirtualSize() && FullPages(c, v')
    requires Written(v, v', Quot(at, c.P()), Rem(at, c.P()), value)
    ensures Agrees(c, v', Discover(c, v, v', first, Quot(at, c.P())), calls + [WriteCall(at, value)])
  {
    var page := Quot(at, c.P());
    var first' := Discover(c, v, v', first, page);
    var calls' := calls + [WriteCall(at, value)];
    forall va: nat {:trigger AgreesAt(c, v', first', calls', va)} | va < c.VirtualSize()
      ensures AgreesAt(c, v', first', calls', va)
    {
      assert AgreesAt(c, v, first, calls, va);
      AddCall(calls, WriteCall(at, value), va);
      if Quot(va, c.P()) == page && Rem(va, c.P()) == Rem(at, c.P()) {
        JoinSplit(va, c.P());
        JoinSplit(at, c.P());
      }
    }
  }

  /** Out-of-range calls are refused and change nothing. */
  lemma AgreesAfterRefusal(c: Config, v: PageView, first: map<nat, Word>, calls: seq<Call>, call: Call)
    requires Agrees(c, v, first, calls) && call.va >= c.VirtualSize()
    ensures Agrees(c, v, first, calls + [call])
  {
    forall va: nat {:trigger AgreesAt(c, v, first, calls + [call], va)} | va < c.VirtualSize()
      ensures AgreesAt(c, v, first, calls + [call], va)
    {
      assert AgreesAt(c, v, first, calls, va);
      AddCall(calls, call, va);
    }
  }

  /** The flat memory as it stands before the first call of a run. */
  ghost function KnownWords(c: Config, v: PageView): map<nat, Word>
    requires FullPages(c, v)
  {
    map va: nat | va < c.VirtualSize() && Quot(va, c.P()) in v :: v[Quot(va, c.P())][Rem(va, c.P())]
  }

  lemma AgreesInitially(c: Config, v: PageView)
    requires FullPages(c, v)
    ensures Agrees(c, v, KnownWords(c, v), [])
  {
  }

  lemma ViewHasFullPages(c: Config, s: State)
    requires c.Valid() && Good(ShapeOf(c), s)
    ensures FullPages(c, View(ShapeOf(c), s))
  {
    var g := ShapeOf(c);
    forall page | page in View(g, s)
      ensures |View(g, s)[page]| == g.P
    {
      assert PageContents(g, s, page).Some?;
    }
  }

  ghost predicate AllAnswered(c: Config, first: map<nat, Word>, calls: seq<Call>, answers: seq<Option<Word>>) {
    && |answers| == |calls|
    && forall k {:trigger answers[k]} | 0 <= k < |calls| :: FlatAnswer(c, first, calls[..k], calls[k], answers[k])
  }

  lemma AnswerOneMore(c: Config, first: map<nat, Word>, first': map<nat, Word>,
                      calls: seq<Call>, answers: seq<Option<Word>>, call: Call, answer: Option<Word>)
    requires AllAnswered(c, first, calls, answers) && Extends(first, first')
    requires FlatAnswer(c, first', calls, call, answer)
    ensures AllAnswered(c, first', calls + [call], answers + [answer])
  {
    var calls', answers' := calls + [call], answers + [answer];
    forall k {:trigger answers'[k]} | 0 <= k < |calls'|
      ensures FlatAnswer(c, first', calls'[..k], calls'[k], answers'[k])
    {
      if k < |calls| {
        assert calls'[..k] == calls[..k];
        assert answers'[k] == answers[k];
        assert FlatAnswer(c, first, calls[..k], calls[k], answers[k]);
      } else {
        assert calls'[..k] == calls;
      }
    }
  }

  /** The pages that the calls in range address. */
  function PagesCalled(c: Config, calls: seq<Call>): set<nat> {
    if calls == [] then {}
    else
      var call := calls[|calls| - 1];
      PagesCalled(c, calls[..|calls| - 1]) + if call.va < c.VirtualSize() then {Quot(call.va, c.P())} else {}
  }

  lemma OneMoreCalled(c: Config, calls: seq<Call>, call: Call)
    ensures PagesCalled(c, calls + [call])
            == PagesCalled(c, calls) + if call.va < c.VirtualSize() then {Quot(call.va, c.P())} else {}
  {
    assert (calls + [call])[..|calls|] == calls;
  }

  /** A run that began with the view v0, has reached the view v and has had these calls answered. */
  ghost predicate Running(c: Config, v0: PageView, v: PageView, first: map<nat, Word>,
                          calls: seq<Call>, answers: seq<Option<Word>>)
  {
    && FullPages(c, v0) && Extends(KnownWords(c, v0), first)
    && (forall va | va in first :: va < c.VirtualSize())
    && Agrees(c, v, first, calls)
    && AllAnswered(c, first, calls, answers)
    && v.Keys == v0.Keys + PagesCalled(c, calls)
  }

  lemma RunStarts(c: Config, v: PageView)
    requires FullPages(c, v)
    ensures Running(c, v, v, KnownWords(c, v), [], [])
  {
    AgreesInitially(c, v);
  }

  lemma RunContinues(c: Config, v0: PageView, v: PageView, v': PageView, first: map<nat, Word>,
                     calls: seq<Call>, answers: seq<Option<Word>>, call: Call, answer: Option<Word>)
    requires Running(c, v0, v, first, calls, answers) && FullPages(c, v')
    requires answer.Some? <==> call.va < c.VirtualSize()
    requires answer.None? ==> v' == v
    requires answer.Some? ==>
               match call
               case ReadCall(va) => Read(v, v', Quot(va, c.P()), Rem(va, c.P()), answer.value)
               case WriteCall(va, value) =>
                 answer == Some(value) && Written(v, v', Quot(va, c.P()), Rem(va, c.P()), value)
    ensures var first' := if answer.Some? then Discover(c, v, v', first, Quot(call.va, c.P())) else first;
            Running(c, v0, v', first', calls + [call], answers + [answer])
  {
    hide Agrees, AllAnswered, KnownWords, PagesCalled;
    OneMoreCalled(c, calls, call);
    if answer.None? {
      AgreesAfterRefusal(c, v, first, calls, call);
      AnswerOneMore(c, first, first, calls, answers, call, answer);
    } else {
      var first' := Discover(c, v, v', first, Quot(call.va, c.P()));
      DiscoverExtends(c, v, v', first, calls, Quot(call.va, c.P()));
      match call {
        case ReadCall(va) => AgreesAfterRead(c, v, v', first, calls, va, answer.value);
        case WriteCall(va, value) => AgreesAfterWrite(c, v, v', first, calls, va, value);
      }
      AnswerOneMore(c, first, first', calls, answers, call, answer);
    }
  }

  lemma RunIsAnswered(c: Config, v0: PageView, v: PageView, first: map<nat, Word>,
                      calls: seq<Call>, answers: seq<Option<Word>>)
    requires Running(c, v0, v, first, calls, answers)
    ensures FullPages(c, v0) && Extends(KnownWords(c, v0), first) && AllAnswered(c, first, calls, answers)
    ensures v.Keys == v0.Keys + PagesCalled(c, calls)
  {
  }

  ghost function ViewOf(vm: VirtualMemory): PageView
    requires vm.Valid()
    reads vm, vm.pm
  {
    View(ShapeOf(vm.c), vm.Now())
  }

  lemma StartRun(vm: VirtualMemory) returns (first: map<nat, Word>)
    requires vm.Valid()
    ensures Running(vm.c, ViewOf(vm), ViewOf(vm), first, [], [])
  {
    ViewHasFullPages(vm.c, vm.Now());
    RunStarts(vm.c, ViewOf(vm));
    first := KnownWords(vm.c, ViewOf(vm));
  }

  method Perform(vm: VirtualMemory, call: Call, ghost v0: PageView, ghost first: map<nat, Word>,
                 ghost calls: seq<Call>, ghost answers: seq<Option<Word>>)
    returns (answer: Option<Word>, ghost first': map<nat, Word>)
    requires vm.Valid() && Running(vm.c, v0, ViewOf(vm), first, calls, answers)
    modifies vm`tree, vm.pm`swapFile, vm.pm`RAM
    ensures vm.Valid() && Running(vm.c, v0, ViewOf(vm), first', calls + [call], answers + [answer])
  {
    ghost var v := ViewOf(vm);
    match call {
      case ReadCall(va) =>
        answer := vm.VMRead(va);
      case WriteCall(va, value) =>
        var success := vm.VMWrite(va, value);
        answer := if success then Some(value) else None;
    }
    ViewHasFullPages(vm.c, vm.Now());
    RunContinues(vm.c, v0, v, ViewOf(vm), first, calls, answers, call, answer);
    first' := if answer.Some? then Discover(vm.c, v, ViewOf(vm), first, Quot(call.va, vm.c.P())) else first;
  }

  /** Any finite sequence of calls is answered as by one flat memory: each read returns the last value
      written to its address or, before any write, the same initial contents every time. Pages that had
      been touched before the run start with the contents they had, and the touched pages afterwards are
      those and the ones called. */
  method Run(vm: VirtualMemory, calls: seq<Call>) returns (answers: seq<Option<Word>>, ghost first: map<nat, Word>)
    requires vm.Valid()
    modifies vm`tree, vm.pm`swapFile, vm.pm`RAM
    ensures vm.Valid()
    ensures AllAnswered(vm.c, first, calls, answers)
    ensures FullPages(vm.c, old(ViewOf(vm))) && Extends(KnownWords(vm.c, old(ViewOf(vm))), first)
    ensures ViewOf(vm).Keys == old(ViewOf(vm)).Keys + PagesCalled(vm.c, calls)
  {
    hide *;
    ghost var v0 := ViewOf(vm);
    first := StartRun(vm);
    answers := [];
    var k := 0;
    while k < |calls|
      invariant 0 <= k <= |calls| && vm.Valid()
      invariant Running(vm.c, v0, ViewOf(vm), first, calls[..k], answers)
    {
      var answer;
      answer, first := Perform(vm, calls[k], v0, first, calls[..k], answers);
      assert calls[..k] + [calls[k]] == calls[..k + 1];
      answers := answers + [answer];
      k := k + 1;
    }
    assert calls[..k] == calls;
    RunIsAnswered(vm.c, v0, ViewOf(vm), first, calls, answers);
  }

  /** From power-up: whatever the widths, an initialised machine answers as one flat memory. */
  method RunFromPowerUp(c: Config, calls: seq<Call>) returns (answers: seq<Option<Word>>)
    requires c.Valid() && c.Roomy()
    ensures exists first {:trigger AllAnswered(c, first, calls, answers)} :: AllAnswered(c, first, calls, answers)
  {
    var pm := new PhysicalMemory(c);
    var vm := new VirtualMemory(pm);
    vm.VMInitialize();
    ghost var first;
    answers, first := Run(vm, calls);
  }

  // ----- the flat memory itself -----

  /** In a flat memory a read straight after a write to the same address returns what was written,
      and the write is invisible at every other address. */
  lemma FlatReadAfterWrite(first: map<nat, Word>, calls: seq<Call>, at: nat, value: Word, va: nat, seen: Word)
    ensures Holds(first, calls + [WriteCall(at, value)], va, seen)
            <==> if va == at then seen == value else Holds(first, calls, va, seen)
  {
    AddCall(calls, WriteCall(at, value), va);
  }

  /** Any number of calls that do not write to an address leave its contents alone. */
  lemma {:induction false} FlatUnwritten(first: map<nat, Word>, calls: seq<Call>, more: seq<Call>, va: nat, seen: Word)
    requires forall k | 0 <= k < |more| :: more[k].WriteCall? ==> more[k].va != va
    ensures Holds(first, calls + more, va, seen) <==> Holds(first, calls, va, seen)
  {
    if more == [] {
      assert calls + more == calls;
    } else {
      var init := more[..|more| - 1];
      FlatUnwritten(first, calls, init, va, seen);
      assert calls + more == (calls + init) + [more[|more| - 1]];
      AddCall(calls + init, more[|more| - 1], va);
    }
  }
}
