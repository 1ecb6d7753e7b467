/** The MobX store of the handwriting collector: a queue of the digits the
    user is asked to draw next, the drawings collected so far (each labelled
    with the digit it was drawn for), and five training-history lists. Every
    action is a function from the old state to the new one. */
module Store {

  /** A canvas snapshot: `width` by `height` pixels, four channels each. */
  datatype ImageData = ImageData(width: nat, height: nat, data: seq<int>)

  /** What the canvas hands to `addData`. */
  datatype Data = Data(image: ImageData, uri: string)

  /** A collected drawing with the digit it was drawn for. */
  datatype StoreData = StoreData(image: ImageData, uri: string, digit: int)

  datatype History = History(
    epoch: seq<real>,
    accuracy: seq<real>,
    loss: seq<real>,
    validationAccuracy: seq<real>,
    validationLoss: seq<real>)

  datatype State = State(numbersToWrite: seq<int>, data: seq<StoreData>, history: History)

  /** The order in which digits are asked for. */
  const Digits: seq<int> := [1, 2, 3, 4, 5, 6, 7, 8, 9, 0]

  const EmptyHistory := History([], [], [], [], [])

  /** `init`: a full queue, no drawings, no history. */
  function Init(): (s: State)
    ensures s.numbersToWrite == Digits && s.data == [] && s.history == EmptyHistory
  {
    State(Digits, [], EmptyHistory)
  }

  /** `regenerateNumbersToWrite`: refill the queue once it is exhausted. */
  function Regenerate(s: State): (r: State)
    ensures r.data == s.data && r.history == s.history
    ensures |r.numbersToWrite| > 0
    ensures |s.numbersToWrite| > 0 ==> r == s
    ensures |s.numbersToWrite| == 0 ==> r.numbersToWrite == Digits
  {
    if |s.numbersToWrite| == 0 then s.(numbersToWrite := Digits) else s
  }

  /** The queue is a non-empty tail of `Digits`: the state `init` establishes
      and every action keeps. */
  predicate QueueSuffix(q: seq<int>)
  {
    0 < |q| <= |Digits| && forall i :: 0 <= i < |q| ==> q[i] == Digits[|Digits| - |q| + i]
  }

  /** `addData`: label the drawing with the digit at the head of the queue,
      dequeue it and refill the queue if that emptied it. */
  function AddData(s: State, d: Data): (r: State)
    requires |s.numbersToWrite| > 0
    ensures r.data == s.data + [StoreData(d.image, d.uri, s.numbersToWrite[0])]
    ensures |r.numbersToWrite| > 0
    ensures r.history == s.history
    ensures QueueSuffix(s.numbersToWrite) ==> QueueSuffix(r.numbersToWrite)
  {
    var labelled := StoreData(d.image, d.uri, s.numbersToWrite[0]);
    Regenerate(s.(numbersToWrite := s.numbersToWrite[1..], data := s.data + [labelled]))
  }

  /** `addSeedData`: the previously collected drawings replace the current ones. */
  function AddSeedData(s: State, seed: seq<StoreData>): (r: State)
    ensures r.data == seed
    ensures r.numbersToWrite == s.numbersToWrite && r.history == s.history
  {
    s.(data := seed)
  }

  /** `addHistory`: each list grows by the matching incoming list. */
  function AddHistory(s: State, h: History): (r: State)
    ensures r.data == s.data && r.numbersToWrite == s.numbersToWrite
    ensures r.history.epoch == s.history.epoch + h.epoch
    ensures r.history.accuracy == s.history.accuracy + h.accuracy
    ensures r.history.loss == s.history.loss + h.loss
    ensures r.history.validationAccuracy == s.history.validationAccuracy + h.validationAccuracy
    ensures r.history.validationLoss == s.history.validationLoss + h.validationLoss
  {
    var old_ := s.history;
    s.(history := History(
      old_.epoch + h.epoch,
      old_.accuracy + h.accuracy,
      old_.loss + h.loss,
      old_.validationAccuracy + h.validationAccuracy,
      old_.validationLoss + h.validationLoss))
  }

  /** `clearHistory`: all five lists emptied, drawings and queue kept. */
  function ClearHistory(s: State): (r: State)
    ensures r.history == EmptyHistory
    ensures r.data == s.data && r.numbersToWrite == s.numbersToWrite
  {
    s.(history := EmptyHistory)
  }

  /** Appending history in two steps is appending the concatenation once,
      and appending to a cleared history leaves exactly what was appended. */
  lemma HistoryAccumulates(s: State, a: History, b: History)
    ensures AddHistory(AddHistory(s, a), b).history == History(
      s.history.epoch + a.epoch + b.epoch,
      s.history.accuracy + a.accuracy + b.accuracy,
      s.history.loss + a.loss + b.loss,
      s.history.validationAccuracy + a.validationAccuracy + b.validationAccuracy,
      s.history.validationLoss + a.validationLoss + b.validationLoss)
    ensures AddHistory(ClearHistory(s), a).history == a
  {
    var h := AddHistory(AddHistory(s, a), b).history;
    assert h.epoch == s.history.epoch + a.epoch + b.epoch;
    assert h.accuracy == s.history.accuracy + a.accuracy + b.accuracy;
    assert h.loss == s.history.loss + a.loss + b.loss;
    assert h.validationAccuracy == s.history.validationAccuracy + a.validationAccuracy + b.validationAccuracy;
    assert h.validationLoss == s.history.validationLoss + a.validationLoss + b.validationLoss;
    var c := AddHistory(ClearHistory(s), a).history;
    assert c.epoch == [] + a.epoch;
    assert c.accuracy == [] + a.accuracy;
    assert c.loss == [] + a.loss;
    assert c.validationAccuracy == [] + a.validationAccuracy;
    assert c.validationLoss == [] + a.validationLoss;
  }

  /** The actions a user (or the app) can trigger. */
  datatype Action =
    | AddDataAction(d: Data)
    | AddSeedDataAction(seed: seq<StoreData>)
    | AddHistoryAction(h: History)
    | ClearHistoryAction
    | RegenerateAction

  function Step(s: State, a: Action): State
    requires |s.numbersToWrite| > 0
  {
    match a
    case AddDataAction(d) => AddData(s, d)
    case AddSeedDataAction(seed) => AddSeedData(s, seed)
    case AddHistoryAction(h) => AddHistory(s, h)
    case ClearHistoryAction => ClearHistory(s)
    case RegenerateAction => Regenerate(s)
  }

  /** The state after `init` followed by `actions`, in order. */
  function Run(actions: seq<Action>): (s: State)
    ensures QueueSuffix(s.numbersToWrite)
  {
    if |actions| == 0 then Init()
    else Step(Run(actions[..|actions| - 1]), actions[|actions| - 1])
  }

  /** Whatever happened since `init`, the queue is never empty, so `addData`
      always has a digit to label the drawing with. */
  lemma QueueNeverEmpty(actions: seq<Action>)
    ensures |Run(actions).numbersToWrite| > 0
    ensures Run(actions).numbersToWrite == Digits[|Digits| - |Run(actions).numbersToWrite|..]
  {
    var q := Run(actions).numbersToWrite;
    assert q == Digits[|Digits| - |q|..];
  }

  /** `addData` applied to each drawing in turn. */
  function AddAll(s: State, ds: seq<Data>): (r: State)
    requires |s.numbersToWrite| > 0
    ensures |r.numbersToWrite| > 0
    ensures r.history == s.history
    decreases |ds|
  {
    if |ds| == 0 then s else AddAll(AddData(s, ds[0]), ds[1..])
  }

  /** The digits cycle 1, 2, ..., 9, 0: `Digits[i]` is `i + 1` modulo ten. */
  lemma DigitsCycle(i: nat)
    requires i < |Digits|
    ensures Digits[i] == (i + 1) % 10
  {
  }

  /** The digit at position `i` of the endless cycle 1, 2, ..., 9, 0, 1, ... */
  function CycleDigit(i: nat): (d: int)
    ensures d == (i + 1) % 10
  {
    DigitsCycle(i % 10);
    ModAdd(i, 1);
    Digits[i % 10]
  }

  /** The drawings `ds` labelled with the cycle of digits from position `pos` on. */
  function Labelled(ds: seq<Data>, pos: nat): (r: seq<StoreData>)
    ensures |r| == |ds|
  {
    seq(|ds|, k requires 0 <= k < |ds| => StoreData(ds[k].image, ds[k].uri, CycleDigit(pos + k)))
  }

  lemma LabelledCons(ds: seq<Data>, pos: nat)
    requires |ds| > 0
    ensures Labelled(ds, pos)
      == [StoreData(ds[0].image, ds[0].uri, CycleDigit(pos))] + Labelled(ds[1..], pos + 1)
  {
    var a := Labelled(ds, pos);
    var b := [StoreData(ds[0].image, ds[0].uri, CycleDigit(pos))] + Labelled(ds[1..], pos + 1);
    forall k | 0 <= k < |ds|
      ensures a[k] == b[k]
    {
      if k > 0 {
        assert ds[1..][k - 1] == ds[k];
      }
    }
  }

  /** Reducing the first summand modulo ten does not change the sum modulo ten. */
  lemma ModAdd(a: nat, b: nat)
    ensures (a % 10 + b) % 10 == (a + b) % 10
  {
    var q := a / 10;
    assert a == 10 * q + a % 10;
    assert a + b == 10 * q + (a % 10 + b);
  }

  /** One `addData` labels with the digit at the queue's position in the
      cycle and moves that position one step on. */
  lemma AddDataAdvances(s: State, d: Data, pos: nat)
    requires QueueSuffix(s.numbersToWrite)
    requires pos % 10 == |Digits| - |s.numbersToWrite|
    ensures AddData(s, d).data == s.data + [StoreData(d.image, d.uri, CycleDigit(pos))]
    ensures (pos + 1) % 10 == |Digits| - |AddData(s, d).numbersToWrite|
    ensures QueueSuffix(AddData(s, d).numbersToWrite)
  {
    var q := s.numbersToWrite;
    assert q[0] == Digits[|Digits| - |q|];
    ModAdd(pos, 1);
  }

  /** From a queue that is a tail of `Digits`, successive drawings are
      labelled with the following digits of the endless cycle. */
  lemma {:induction false} AddAllCycles(s: State, ds: seq<Data>, pos: nat)
    requires QueueSuffix(s.numbersToWrite)
    requires pos % 10 == |Digits| - |s.numbersToWrite|
    ensures AddAll(s, ds).data == s.data + Labelled(ds, pos)
    decreases |ds|
  {
    if |ds| == 0 {
      assert Labelled(ds, pos) == [];
    } else {
      var s' := AddData(s, ds[0]);
      AddDataAdvances(s, ds[0], pos);
      var x := StoreData(ds[0].image, ds[0].uri, CycleDigit(pos));
      AddAllCycles(s', ds[1..], pos + 1);
      LabelledCons(ds, pos);
      assert (s.data + [x]) + Labelled(ds[1..], pos + 1)
        == s.data + ([x] + Labelled(ds[1..], pos + 1));
    }
  }

  /** Starting from `init`, the `k`-th drawing added is labelled `(k + 1) % 10`:
      1, 2, ..., 9, 0, 1, 2, ... */
  lemma LabelsCycleFromInit(ds: seq<Data>)
    ensures |AddAll(Init(), ds).data| == |ds|
    ensures forall k :: 0 <= k < |ds| ==> AddAll(Init(), ds).data[k].digit == (k + 1) % 10
  {
    AddAllCycles(Init(), ds, 0);
    assert AddAll(Init(), ds).data == [] + Labelled(ds, 0);
  }
}
