/**
  The sign-in client used in tests: it answers the sign-out and cookie
  questions from flags, and it holds network calls in a first-in,
  first-out queue while calls are delayed, running them all in order once
  delays are switched off. Callbacks are opaque values of a type
  parameter; running one is recorded by appending it to the list of calls
  that have run.
*/
module TestSigninClient {
  import opened Wrappers

  datatype Client<C> = Client(
    areSigninCookiesAllowed: bool,
    networkCallsDelayed: bool,
    isSignoutAllowed: bool,
    delayedNetworkCalls: seq<C>,
    ran: seq<C>)

  /** A new client: cookies allowed, calls not delayed, sign-out allowed, nothing queued or run. */
  function New<C>(): (c: Client<C>)
    ensures c.areSigninCookiesAllowed && !c.networkCallsDelayed && c.isSignoutAllowed
    ensures c.delayedNetworkCalls == [] && c.ran == []
  {
    Client(true, false, true, [], [])
  }

  datatype SignoutDecision = AllowSignout | DisallowSignout

  /** The decision handed to the sign-out callback. */
  function PreSignOut<C>(c: Client<C>): (d: SignoutDecision)
    ensures d == AllowSignout <==> c.isSignoutAllowed
  {
    if c.isSignoutAllowed then AllowSignout else DisallowSignout
  }

  function AreSigninCookiesAllowed<C>(c: Client<C>): (r: bool)
    ensures r <==> c.areSigninCookiesAllowed
  {
    c.areSigninCookiesAllowed
  }

  /**
    A network call: queued while calls are delayed, run at once otherwise.
    Nothing else changes.
  */
  function DelayNetworkCall<C>(c: Client<C>, callback: C): (r: Client<C>)
    ensures c.networkCallsDelayed ==>
      r.delayedNetworkCalls == c.delayedNetworkCalls + [callback] && r.ran == c.ran
    ensures !c.networkCallsDelayed ==>
      r.ran == c.ran + [callback] && r.delayedNetworkCalls == c.delayedNetworkCalls
    ensures r.networkCallsDelayed == c.networkCallsDelayed
    ensures r.isSignoutAllowed == c.isSignoutAllowed && r.areSigninCookiesAllowed == c.areSigninCookiesAllowed
  {
    if c.networkCallsDelayed then c.(delayedNetworkCalls := c.delayedNetworkCalls + [callback])
    else c.(ran := c.ran + [callback])
  }

  /** Runs the queued calls one after the other, front first. */
  function RunAll<C>(ran: seq<C>, queue: seq<C>): (r: seq<C>)
    ensures r == ran + queue
    decreases |queue|
  {
    if |queue| == 0 then ran
    else
      assert ran + queue == (ran + [queue[0]]) + queue[1..];
      RunAll(ran + [queue[0]], queue[1..])
  }

  /**
    Switches delays on or off. Switching them on runs nothing and keeps
    the queue; switching them off runs every queued call in order and
    empties the queue.
  */
  function SetNetworkCallsDelayed<C>(c: Client<C>, value: bool): (r: Client<C>)
    ensures r.networkCallsDelayed == value
    ensures value ==> r.ran == c.ran && r.delayedNetworkCalls == c.delayedNetworkCalls
    ensures !value ==> r.ran == c.ran + c.delayedNetworkCalls && r.delayedNetworkCalls == []
    ensures r.isSignoutAllowed == c.isSignoutAllowed && r.areSigninCookiesAllowed == c.areSigninCookiesAllowed
  {
    var switched := c.(networkCallsDelayed := value);
    if !switched.networkCallsDelayed then
      switched.(ran := RunAll(switched.ran, switched.delayedNetworkCalls), delayedNetworkCalls := [])
    else
      switched
  }

  /** The logout callback runs at once, unless there is none. */
  function PreGaiaLogout<C>(c: Client<C>, callback: Option<C>): (r: Client<C>)
    ensures callback.Some? ==> r.ran == c.ran + [callback.value]
    ensures callback.None? ==> r == c
    ensures r.delayedNetworkCalls == c.delayedNetworkCalls && r.networkCallsDelayed == c.networkCallsDelayed
  {
    match callback
    case None => c
    case Some(cb) => c.(ran := c.ran + [cb])
  }

  // ---------------------------------------------------------------------
  // Sequences of network calls

  /** What a test does to the network-call queue. */
  datatype NetworkOp<C> = Delay(callback: C) | SetDelayed(value: bool)

  function Apply<C>(c: Client<C>, op: NetworkOp<C>): Client<C>
  {
    match op
    case Delay(cb) => DelayNetworkCall(c, cb)
    case SetDelayed(v) => SetNetworkCallsDelayed(c, v)
  }

  /** The client after the operations, applied in order. */
  function Replay<C>(c: Client<C>, ops: seq<NetworkOp<C>>): Client<C>
  {
    if |ops| == 0 then c else Apply(Replay(c, ops[..|ops| - 1]), ops[|ops| - 1])
  }

  /** The callbacks handed to the client, in order. */
  function Submitted<C>(ops: seq<NetworkOp<C>>): seq<C>
  {
    if |ops| == 0 then []
    else Submitted(ops[..|ops| - 1]) + (if ops[|ops| - 1].Delay? then [ops[|ops| - 1].callback] else [])
  }

  /** Whether delays are on after the operations: the last switch decides, and they start off. */
  function DelayedAfter<C>(ops: seq<NetworkOp<C>>): bool
  {
    if |ops| == 0 then false
    else if ops[|ops| - 1].SetDelayed? then ops[|ops| - 1].value
    else DelayedAfter(ops[..|ops| - 1])
  }

  /**
    Starting from a new client, the calls that have run followed by the
    calls still queued are exactly the calls submitted, in submission
    order: none is lost, repeated or overtaken. While delays are off the
    queue is empty.
  */
  lemma {:induction false} NetworkCallsFirstInFirstOut<C>(ops: seq<NetworkOp<C>>)
    ensures var r := Replay(New(), ops);
      && r.ran + r.delayedNetworkCalls == Submitted(ops)
      && r.networkCallsDelayed == DelayedAfter(ops)
      && (!r.networkCallsDelayed ==> r.delayedNetworkCalls == [])
  {
    if |ops| > 0 {
      var before := Replay(New(), ops[..|ops| - 1]);
      NetworkCallsFirstInFirstOut(ops[..|ops| - 1]);
      match ops[|ops| - 1]
      case Delay(cb) =>
        assert before.ran + (before.delayedNetworkCalls + [cb]) == (before.ran + before.delayedNetworkCalls) + [cb];
      case SetDelayed(v) =>
    }
  }
}
