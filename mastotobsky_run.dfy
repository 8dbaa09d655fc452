/** The mutable state of one run of mastoToBsky.js: the request queue with
    its pacing timer, and the `results` array that the row handler and the
    settled checks push to. Each method is one event of the JavaScript
    event loop (a CSV row arriving, a request's promise settling, a timer
    callback running); the order of events is the caller's. */
module MastoToBskyRun {
  import opened Text
  import opened MastoToBsky

  /** `apiRequestQueue` and `apiRequestTimer` with the functions that use
      them, `enqueueApiRequest` and `processApiRequestQueue`. */
  class RequestQueue {
    /** `apiRequestQueue`: requests waiting to start. */
    var pending: seq<Account>
    /** `apiRequestTimer !== null`. */
    var timerArmed: bool
    /** `setTimeout` callbacks scheduled and not yet run. */
    var timersScheduled: nat
    /** Requests started whose promise has not settled. */
    var inFlight: multiset<Account>
    /** Every request ever enqueued, in order. */
    ghost var enqueued: seq<Account>
    /** Every request ever started, in order. */
    ghost var started: seq<Account>
    /** Every request whose promise settled, in order of settling. */
    ghost var finished: seq<Account>
    /** Number of timer callbacks run. */
    ghost var fires: nat

    /** Requests start in the order they were enqueued, each at most once,
        and every started request is either settled or in flight. */
    ghost predicate Valid()
      reads this
    {
      && started + pending == enqueued
      && (timerArmed ==> timersScheduled > 0)
      && multiset(started) == multiset(finished) + inFlight
    }

    /** Empty queue, no timer: the state the script starts in, and which
        every event it can see preserves. */
    ghost predicate Idle()
      reads this
    {
      pending == [] && !timerArmed && timersScheduled == 0
    }

    constructor ()
      ensures Valid() && Idle()
      ensures enqueued == [] && started == [] && finished == [] && inFlight == multiset{} && fires == 0
    {
      pending, timerArmed, timersScheduled, inFlight := [], false, 0, multiset{};
      enqueued, started, finished, fires := [], [], [], 0;
    }

    /** `processApiRequestQueue`: unless the timer is armed, take the head
        of the queue and start it. */
    method Process()
      requires Valid()
      modifies this
      ensures Valid()
      ensures enqueued == old(enqueued) && finished == old(finished) && fires == old(fires)
      ensures timerArmed == old(timerArmed) && timersScheduled == old(timersScheduled)
      ensures if !old(timerArmed) && old(pending) != [] then
                && started == old(started) + [old(pending)[0]]
                && pending == old(pending)[1..]
                && inFlight == old(inFlight) + multiset{old(pending)[0]}
              else
                started == old(started) && pending == old(pending) && inFlight == old(inFlight)
    {
      if !timerArmed && |pending| > 0 {
        var request := pending[0];
        assert pending == [request] + pending[1..];
        pending := pending[1..];
        started := started + [request];
        inFlight := inFlight + multiset{request};
      }
    }

    /** `enqueueApiRequest`: append to the queue, then process it. With the
        timer unarmed the head of the queue starts at once; from an idle
        queue that is the request just enqueued. */
    method Enqueue(request: Account)
      requires Valid()
      modifies this
      ensures Valid()
      ensures enqueued == old(enqueued) + [request]
      ensures finished == old(finished) && fires == old(fires)
      ensures timerArmed == old(timerArmed) && timersScheduled == old(timersScheduled)
      ensures if old(timerArmed) then
                started == old(started) && pending == old(pending) + [request] && inFlight == old(inFlight)
              else
                var next := (old(pending) + [request])[0];
                && started == old(started) + [next]
                && pending == (old(pending) + [request])[1..]
                && inFlight == old(inFlight) + multiset{next}
      ensures old(Idle()) ==> Idle() && started == old(started) + [request]
    {
      pending := pending + [request];
      enqueued := enqueued + [request];
      Process();
    }

    /** The `.then` callback a started request runs when it settles: if more
        requests are waiting, schedule the timer. */
    method Completed(request: Account)
      requires Valid() && request in inFlight
      modifies this
      ensures Valid()
      ensures finished == old(finished) + [request] && inFlight == old(inFlight) - multiset{request}
      ensures enqueued == old(enqueued) && started == old(started) && pending == old(pending)
      ensures fires == old(fires)
      ensures timerArmed == (old(timerArmed) || pending != [])
      ensures timersScheduled == old(timersScheduled) + (if pending != [] then 1 else 0)
      ensures old(Idle()) ==> Idle()
    {
      assert multiset(finished + [request]) == multiset(finished) + multiset{request};
      assert (inFlight - multiset{request}) + multiset{request} == inFlight;
      finished := finished + [request];
      inFlight := inFlight - multiset{request};
      if |pending| > 0 {
        timerArmed := true;
        timersScheduled := timersScheduled + 1;
      }
    }

    /** A scheduled timer callback runs: clear the timer, then process. */
    method TimerFired()
      requires Valid() && timersScheduled > 0
      modifies this
      ensures Valid()
      ensures !timerArmed && timersScheduled == old(timersScheduled) - 1 && fires == old(fires) + 1
      ensures enqueued == old(enqueued) && finished == old(finished)
      ensures if old(pending) != [] then
                && started == old(started) + [old(pending)[0]]
                && pending == old(pending)[1..]
                && inFlight == old(inFlight) + multiset{old(pending)[0]}
              else
                started == old(started) && pending == [] && inFlight == old(inFlight)
    {
      timersScheduled := timersScheduled - 1;
      fires := fires + 1;
      timerArmed := false;
      Process();
    }
  }

  /** Two requests enqueued back to back on the queue as written: both
      start straight away and are in flight together, although no timer
      has fired and the source meant requests to be 100 ms apart. */
  method BurstWithoutPacing(first: Account, second: Account) returns (queue: RequestQueue)
    ensures queue.Valid() && queue.Idle()
    ensures queue.started == [first, second] && queue.inFlight == multiset{first, second}
    ensures queue.fires == 0
  {
    queue := new RequestQueue();
    queue.Enqueue(first);
    queue.Enqueue(second);
  }

  /** The queue as the comments in `processApiRequestQueue` describe it:
      the timer is armed as soon as a request starts, so that each later
      request starts only when a 100 ms timer fires. */
  class PacedRequestQueue {
    var pending: seq<Account>
    /** A timer is scheduled (at most one at a time here). */
    var timerArmed: bool
    var inFlight: multiset<Account>
    ghost var enqueued: seq<Account>
    ghost var started: seq<Account>
    ghost var finished: seq<Account>
    ghost var fires: nat

    /** As `RequestQueue.Valid`, and at most one start per timer period:
        every start after the first is preceded by its own timer firing. */
    ghost predicate Valid()
      reads this
    {
      && started + pending == enqueued
      && multiset(started) == multiset(finished) + inFlight
      && |started| <= fires + (if timerArmed then 1 else 0)
    }

    constructor ()
      ensures Valid() && !timerArmed
      ensures pending == [] && enqueued == [] && started == [] && finished == [] && fires == 0
    {
      pending, timerArmed, inFlight := [], false, multiset{};
      enqueued, started, finished, fires := [], [], [], 0;
    }

    /** Start the head of the queue unless the timer is armed, and arm it. */
    method Process()
      requires Valid()
      modifies this
      ensures Valid()
      ensures enqueued == old(enqueued) && finished == old(finished) && fires == old(fires)
      ensures if !old(timerArmed) && old(pending) != [] then
                && started == old(started) + [old(pending)[0]]
                && pending == old(pending)[1..]
                && inFlight == old(inFlight) + multiset{old(pending)[0]}
                && timerArmed
              else
                started == old(started) && pending == old(pending) && inFlight == old(inFlight) &&
                timerArmed == old(timerArmed)
    {
      if !timerArmed && |pending| > 0 {
        var request := pending[0];
        assert pending == [request] + pending[1..];
        pending := pending[1..];
        started := started + [request];
        inFlight := inFlight + multiset{request};
        timerArmed := true;
      }
    }

    method Enqueue(request: Account)
      requires Valid()
      modifies this
      ensures Valid()
      ensures enqueued == old(enqueued) + [request] && started + pending == enqueued
      ensures fires == old(fires) && finished == old(finished) && timerArmed
      ensures if old(timerArmed) then
                started == old(started) && pending == old(pending) + [request] && inFlight == old(inFlight)
              else
                var next := (old(pending) + [request])[0];
                && started == old(started) + [next]
                && pending == (old(pending) + [request])[1..]
                && inFlight == old(inFlight) + multiset{next}
      ensures |started| <= fires + 1
    {
      pending := pending + [request];
      enqueued := enqueued + [request];
      Process();
    }

    /** A request settled; pacing does not depend on it. */
    method Completed(request: Account)
      requires Valid() && request in inFlight
      modifies this
      ensures Valid()
      ensures finished == old(finished) + [request] && inFlight == old(inFlight) - multiset{request}
      ensures enqueued == old(enqueued) && started == old(started) && pending == old(pending)
      ensures timerArmed == old(timerArmed) && fires == old(fires)
    {
      assert multiset(finished + [request]) == multiset(finished) + multiset{request};
      assert (inFlight - multiset{request}) + multiset{request} == inFlight;
      finished := finished + [request];
      inFlight := inFlight - multiset{request};
    }

    method TimerFired()
      requires Valid() && timerArmed
      modifies this
      ensures Valid()
      ensures fires == old(fires) + 1
      ensures enqueued == old(enqueued) && finished == old(finished)
      ensures if old(pending) != [] then
                started == old(started) + [old(pending)[0]] && pending == old(pending)[1..] && timerArmed
              else
                started == old(started) && pending == [] && !timerArmed
      ensures |started| <= fires + 1
    {
      fires := fires + 1;
      timerArmed := false;
      Process();
    }
  }
  /** The same two requests on the paced queue: only the first starts;
      the second waits for the timer. */
  method PacedBurst(first: Account, second: Account) returns (queue: PacedRequestQueue)
    ensures queue.Valid() && queue.timerArmed
    ensures queue.started == [first] && queue.pending == [second] && queue.fires == 0
  {
    queue := new PacedRequestQueue();
    queue.Enqueue(first);
    queue.Enqueue(second);
  }

  /** A settled check and the value `checkAccountExists` resolved to. */
  datatype CheckDone = CheckDone(account: Account, accountExists: bool)

  function CheckedAccount(c: CheckDone): Account {
    c.account
  }

  predicate Confirms(c: CheckDone) {
    c.accountExists
  }

  /** The module-level state of the script: the `-c` flag, the request
      queue of the script as written, and `results`. */
  class ConversionRun {
    /** Whether `-c` was given. */
    const checkFlag: bool
    const requests: RequestQueue
    /** `results`: the records to be written out. */
    var results: seq<Account>
    /** The `Account address` of every row delivered so far, in order. */
    ghost var rows: seq<string>
    /** Every settled check, in order of settling. */
    ghost var checks: seq<CheckDone>

    /** Without `-c`, `results` holds the record of every row that is not
        excluded, in row order, and no request exists. With `-c`, exactly
        those records are enqueued, in row order, and `results` holds the
        checks that resolved to true, in order of settling. The queue stays
        idle throughout: nothing waits and no timer is ever scheduled. */
    ghost predicate Valid()
      reads this, requests
    {
      && requests.Valid() && requests.Idle()
      && |checks| == |requests.finished|
      && (forall k :: 0 <= k < |checks| ==> checks[k].account == requests.finished[k])
      && if checkFlag then
           requests.enqueued == Accounts(rows) && results == FilterMap(checks, Confirms, CheckedAccount)
         else
           requests.enqueued == [] && results == Accounts(rows)
    }

    constructor (checkFlag: bool)
      ensures Valid() && fresh(requests)
      ensures this.checkFlag == checkFlag && results == [] && rows == [] && checks == []
      ensures requests.started == [] && requests.finished == [] && requests.fires == 0
    {
      this.checkFlag := checkFlag;
      requests := new RequestQueue();
      results := [];
      rows := [];
      checks := [];
    }

    /** The `data` handler for one row: an excluded address changes nothing;
        otherwise its record is pushed to `results`, or with `-c` its check
        is enqueued, and since no timer is armed it starts at once. */
    method OnRow(raw: string)
      requires Valid()
      modifies this, requests
      ensures Valid()
      ensures rows == old(rows) + [raw] && checks == old(checks)
      ensures ExcludeDomain(raw) ==> results == old(results) && unchanged(requests)
      ensures !ExcludeDomain(raw) && !checkFlag ==> results == old(results) + [RowAccount(raw)] && unchanged(requests)
      ensures !ExcludeDomain(raw) && checkFlag ==>
                && results == old(results)
                && requests.enqueued == old(requests.enqueued) + [RowAccount(raw)]
                && requests.started == old(requests.started) + [RowAccount(raw)]
                && requests.inFlight == old(requests.inFlight) + multiset{RowAccount(raw)}
      ensures requests.finished == old(requests.finished) && requests.fires == old(requests.fires)
    {
      var newAddress := ConvertAddressFormat(raw);
      var profileUrl := ProfileUrl(newAddress);
      if !ExcludeDomain(raw) {
        if checkFlag {
          requests.Enqueue(Account(newAddress, profileUrl));
        } else {
          results := results + [Account(newAddress, profileUrl)];
        }
      }
      FilterMapSnoc(rows, raw, Included, RowAccount);
      rows := rows + [raw];
    }

    /** The whole CSV stream delivered with no other event in between:
        with `-c` every check has started by the end of it. */
    method OnRows(input: seq<string>)
      requires Valid()
      modifies this, requests
      ensures Valid()
      ensures rows == old(rows) + input && checks == old(checks)
      ensures !checkFlag ==> results == old(results) + Accounts(input) && unchanged(requests)
      ensures checkFlag ==>
                && results == old(results)
                && requests.enqueued == old(requests.enqueued) + Accounts(input)
                && requests.started == old(requests.started) + Accounts(input)
      ensures requests.finished == old(requests.finished) && requests.fires == old(requests.fires)
    {
      ghost var rows0, results0, enqueued0 := rows, results, requests.enqueued;
      assert checkFlag ==> enqueued0 == Accounts(rows0);
      assert !checkFlag ==> results0 == Accounts(rows0);
      for i := 0 to |input|
        invariant Valid()
        invariant rows == rows0 + input[..i] && checks == old(checks)
        invariant !checkFlag ==> unchanged(requests)
        invariant checkFlag ==> results == results0
        invariant requests.finished == old(requests.finished) && requests.fires == old(requests.fires)
      {
        PrefixSnoc(rows0, input, i);
        OnRow(input[i]);
      }
      assert rows == rows0 + input by { assert input[..|input|] == input; }
      FilterMapAppend(rows0, input, Included, RowAccount);
      if checkFlag {
        assert requests.enqueued == enqueued0 + Accounts(input);
        assert requests.started == requests.enqueued && old(requests.started) == enqueued0;
      } else {
        assert results == results0 + Accounts(input);
      }
    }

    /** A started check settled: the `.then` that `checkAccountExists`'s
        promise runs in the `data` handler pushes the record when the
        account exists, then the queue's completion callback runs and,
        finding the queue empty, schedules no timer. */
    method RequestCompleted(request: Account, accountExists: bool)
      requires Valid() && checkFlag && request in requests.inFlight
      modifies this, requests
      ensures Valid()
      ensures checks == old(checks) + [CheckDone(request, accountExists)] && rows == old(rows)
      ensures results == old(results) + (if accountExists then [request] else [])
      ensures requests.finished == old(requests.finished) + [request]
      ensures requests.inFlight == old(requests.inFlight) - multiset{request}
      ensures requests.enqueued == old(requests.enqueued) && requests.started == old(requests.started)
      ensures requests.fires == old(requests.fires)
    {
      ghost var checks0, finished0 := checks, requests.finished;
      if accountExists {
        results := results + [request];
      }
      FilterMapSnoc(checks, CheckDone(request, accountExists), Confirms, CheckedAccount);
      checks := checks + [CheckDone(request, accountExists)];
      requests.Completed(request);
      forall k | 0 <= k < |checks| ensures checks[k].account == requests.finished[k] {
        if k < |checks0| {
          assert checks[k] == checks0[k] && requests.finished[k] == finished0[k];
        }
      }
    }
  }

}
