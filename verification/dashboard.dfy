/**
  The processor panel of the dashboard (components/Dashboard.tsx) as a state
  machine: an action runs the dispatcher on the panel's inputs and prepends
  the outcome to a most-recent-first log of at most ten entries; CLEAR
  empties the log.
 */
module Dashboard {
  import opened Types
  import CryptoService

  /** The log keeps this many entries; older ones are dropped. */
  const Capacity: nat := 10

  function Min(a: nat, b: nat): nat
  {
    if a < b then a else b
  }

  /** `s.slice(0, n)`: the first `n` elements, or all of them when there are fewer. */
  function Take<T>(s: seq<T>, n: nat): (r: seq<T>)
    ensures |r| == Min(|s|, n)
    ensures r <= s
  {
    if |s| <= n then s else s[..n]
  }

  /** The elements of `s` in the opposite order. */
  function Reverse<T>(s: seq<T>): (r: seq<T>)
    ensures |r| == |s|
  {
    seq(|s|, i requires 0 <= i < |s| => s[|s| - 1 - i])
  }

  /** The panel's state: the three inputs and the log. */
  datatype State = State(
    inputText: string,
    secretKey: string,
    algorithm: CryptoAlgorithm,
    history: seq<CryptoResult>)

  /** The log never holds more than `Capacity` entries. */
  ghost predicate Valid(s: State)
  {
    |s.history| <= Capacity
  }

  /** The state the panel starts in: empty inputs, AES selected, an empty log. */
  function Init(): (s: State)
    ensures Valid(s) && s.history == []
    ensures s.algorithm == AES && s.inputText == [] && s.secretKey == []
  {
    State("", "", AES, [])
  }

  /** The text an action of direction `op` produces: the dispatcher is called on the same inputs. */
  function Output(lib: CryptoService.CipherLibrary, op: Operation, text: string, key: string, a: CryptoAlgorithm): string
  {
    match op
    case Encrypt => CryptoService.Encrypt(lib, text, key, Id(a))
    case Decrypt => CryptoService.Decrypt(lib, text, key, Id(a))
  }

  /**
    The log update of `handleAction`: empty text or key leaves the log as it
    was; otherwise a new record goes in front, the previous entries follow in
    order, and the log is cut to `Capacity`.
   */
  function Record(lib: CryptoService.CipherLibrary, history: seq<CryptoResult>, op: Operation,
                  text: string, key: string, a: CryptoAlgorithm, timestamp: string): (h: seq<CryptoResult>)
    ensures text == [] || key == [] ==> h == history
    ensures |history| <= Capacity ==> |h| <= Capacity
    ensures text != [] && key != [] ==>
              && |h| == Min(|history| + 1, Capacity)
              && h[0].algorithm == a && h[0].operation == op && h[0].timestamp == timestamp
              && h[0].output == Output(lib, op, text, key, a)
              && h[1..] == history[..Min(|history|, Capacity - 1)]
    ensures text != [] && key != [] && op == Encrypt ==> h[0].output == lib.encrypt(a, text, key)
    ensures text != [] && key != [] && op == Decrypt ==> h[0].output != []
  {
    if text == [] || key == [] then history
    else
      var result := CryptoResult(Output(lib, op, text, key, a), a, timestamp, op);
      Take([result] + history, Capacity)
  }

  /** `handleAction(type)`: only the log changes, and it stays within `Capacity`. */
  function HandleAction(lib: CryptoService.CipherLibrary, s: State, op: Operation, timestamp: string): (s': State)
    ensures s'.inputText == s.inputText && s'.secretKey == s.secretKey && s'.algorithm == s.algorithm
    ensures s'.history == Record(lib, s.history, op, s.inputText, s.secretKey, s.algorithm, timestamp)
    ensures Valid(s) ==> Valid(s')
  {
    s.(history := Record(lib, s.history, op, s.inputText, s.secretKey, s.algorithm, timestamp))
  }

  /** The CLEAR button: the log is emptied whatever it held; the inputs stay. */
  function Clear(s: State): (s': State)
    ensures s'.history == [] && Valid(s')
    ensures s'.inputText == s.inputText && s'.secretKey == s.secretKey && s'.algorithm == s.algorithm
  {
    s.(history := [])
  }

  /** One action as the log sees it: direction, inputs and the time it ran. */
  datatype Request = Request(op: Operation, text: string, key: string, algorithm: CryptoAlgorithm, timestamp: string)

  predicate Effective(q: Request)
  {
    q.text != [] && q.key != []
  }

  function Apply(lib: CryptoService.CipherLibrary, history: seq<CryptoResult>, q: Request): seq<CryptoResult>
  {
    Record(lib, history, q.op, q.text, q.key, q.algorithm, q.timestamp)
  }

  /** The log after running `reqs` in order, starting from `history`. */
  function Replay(lib: CryptoService.CipherLibrary, history: seq<CryptoResult>, reqs: seq<Request>): seq<CryptoResult>
    decreases |reqs|
  {
    if reqs == [] then history else Replay(lib, Apply(lib, history, reqs[0]), reqs[1..])
  }

  /** The record an effective request produces. */
  function RecordOf(lib: CryptoService.CipherLibrary, q: Request): CryptoResult
  {
    CryptoResult(Output(lib, q.op, q.text, q.key, q.algorithm), q.algorithm, q.timestamp, q.op)
  }

  /** The records of the effective requests of `reqs`, oldest first. */
  function Logged(lib: CryptoService.CipherLibrary, reqs: seq<Request>): seq<CryptoResult>
  {
    if reqs == [] then []
    else (if Effective(reqs[0]) then [RecordOf(lib, reqs[0])] else []) + Logged(lib, reqs[1..])
  }

  /** Cutting twice to the same length is cutting once. */
  lemma TakeAbsorbs<T>(a: seq<T>, b: seq<T>, n: nat)
    ensures Take(a + Take(b, n), n) == Take(a + b, n)
  {
  }

  /** An effective request puts its record in front of the log, cut to `Capacity`. */
  lemma ApplyEffective(lib: CryptoService.CipherLibrary, history: seq<CryptoResult>, q: Request)
    requires Effective(q)
    ensures Apply(lib, history, q) == Take([RecordOf(lib, q)] + history, Capacity)
  {
  }

  /** Reversing a sequence with one element in front puts that element last. */
  lemma ReverseCons<T>(x: T, s: seq<T>)
    ensures Reverse([x] + s) == Reverse(s) + [x]
  {
  }

  /**
    Starting from a log within capacity, the log after any run of actions is
    the newest `Capacity` of: the effective actions' records, newest first,
    followed by the old log.
   */
  lemma {:induction false} ReplayKeepsNewest(lib: CryptoService.CipherLibrary, history: seq<CryptoResult>, reqs: seq<Request>)
    requires |history| <= Capacity
    ensures Replay(lib, history, reqs) == Take(Reverse(Logged(lib, reqs)) + history, Capacity)
    decreases |reqs|
  {
    if reqs == [] {
      assert Take(Reverse(Logged(lib, reqs)) + history, Capacity) == history by {
        assert Reverse(Logged(lib, reqs)) + history == history;
      }
    } else {
      var q, rest := reqs[0], reqs[1..];
      var h1 := Apply(lib, history, q);
      assert Replay(lib, history, reqs) == Replay(lib, h1, rest);
      assert |h1| <= Capacity;
      ReplayKeepsNewest(lib, h1, rest);
      var tail := Reverse(Logged(lib, rest));
      if Effective(q) {
        var r := RecordOf(lib, q);
        ApplyEffective(lib, history, q);
        TakeAbsorbs(tail, [r] + history, Capacity);
        assert Logged(lib, reqs) == [r] + Logged(lib, rest);
        ReverseCons(r, Logged(lib, rest));
        assert tail + ([r] + history) == (tail + [r]) + history;
      } else {
        assert h1 == history;
        assert Logged(lib, reqs) == Logged(lib, rest);
      }
    }
  }

  /**
    From an empty log, after any run of actions the log is exactly the last
    `Capacity` records (all of them when there are fewer), newest first.
   */
  lemma ReplayFromEmpty(lib: CryptoService.CipherLibrary, reqs: seq<Request>)
    ensures var l := Logged(lib, reqs);
            Replay(lib, [], reqs) == Reverse(l[|l| - Min(|l|, Capacity)..])
  {
    var l := Logged(lib, reqs);
    ReplayKeepsNewest(lib, [], reqs);
    assert Reverse(l) + [] == Reverse(l);
    TakeReverse(l, Capacity);
  }

  /** The first `n` of a reversed sequence are the last `n` of it, reversed. */
  lemma TakeReverse<T>(l: seq<T>, n: nat)
    ensures Take(Reverse(l), n) == Reverse(l[|l| - Min(|l|, n)..])
  {
  }

  /** Eleven actions from an empty log keep the last ten and drop the first. */
  lemma EleventhActionEvictsFirst(lib: CryptoService.CipherLibrary, reqs: seq<Request>)
    requires |reqs| == 11
    requires forall i :: 0 <= i < |reqs| ==> Effective(reqs[i])
    ensures var h := Replay(lib, [], reqs);
            |h| == Capacity && forall i :: 0 <= i < Capacity ==> h[i] == RecordOf(lib, reqs[Capacity - i])
  {
    AllEffectiveLogged(lib, reqs);
    ReplayFromEmpty(lib, reqs);
    var l := Logged(lib, reqs);
    var newest := l[1..];
    assert Replay(lib, [], reqs) == Reverse(newest);
  }

  /** When every action is effective, each one contributes its record, in order. */
  lemma {:induction false} AllEffectiveLogged(lib: CryptoService.CipherLibrary, reqs: seq<Request>)
    requires forall i :: 0 <= i < |reqs| ==> Effective(reqs[i])
    ensures |Logged(lib, reqs)| == |reqs|
    ensures forall i :: 0 <= i < |reqs| ==> Logged(lib, reqs)[i] == RecordOf(lib, reqs[i])
    decreases |reqs|
  {
    if reqs != [] {
      AllEffectiveLogged(lib, reqs[1..]);
    }
  }
}
