/**
 The calling campaign (`startCallingCampaign`): walk the client list in order,
 skip clients without a phone number, try to call the others one at a time, and
 pause for five seconds after every call that was created.

 The run is a trace of events. The voice-agent API is an oracle `reply` that
 gives its answer for the client at each position of the list; the pause is an
 event, not elapsed time.
 */
module Campaign {
  import opened Wrappers
  import Text
  import Phone
  import Calls
  import Sheets

  /** The pause after a created call, in milliseconds (line 155). */
  const PacingMs: nat := 5000

  /** What the loop does for a client (by list position), and the pause. */
  datatype Event =
    | Skip(client: nat)                    // no phone number: no call attempted
    | Fail(client: nat)                    // `makeOutboundCall` returned null
    | Success(client: nat, callId: string) // a call object came back
    | Delay(ms: nat)

  /** The guard of line 150, `phone_number && phone_number.trim() !== ''`: the
      phone field holds a character that is not white space (see `HasPhoneIsGuard`). */
  predicate HasPhone(c: Calls.Client): (b: bool)
    ensures b ==> Calls.Field(c, "phone_number") != ""
  {
    !Text.AllSpace(Calls.Field(c, "phone_number"))
  }

  /** `HasPhone` is the guard exactly as the source writes it. */
  lemma HasPhoneIsGuard(c: Calls.Client)
    ensures HasPhone(c) <==>
              Calls.Field(c, "phone_number") != "" && Text.Trim(Calls.Field(c, "phone_number")) != ""
  {
    Text.TrimShape(Calls.Field(c, "phone_number"));
  }

  /** The verdict of the loop body for the client at position `i` (lines 150-162):
      a skip exactly when the guard fails, otherwise what `makeOutboundCall` gave. */
  function Verdict(clients: seq<Calls.Client>, reply: nat -> Calls.ApiReply, i: nat): (e: Event)
    requires i < |clients|
    ensures !e.Delay? && e.client == i
    ensures e.Skip? <==> !HasPhone(clients[i])
  {
    if !HasPhone(clients[i]) then Skip(i)
    else match Calls.MakeOutboundCall(Some(clients[i]), reply(i)).call
      case Some(id) => Success(i, id)
      case None => Fail(i)
  }

  /** The events of one iteration: the verdict, followed by the pause when it is
      a success (line 155). */
  function Emit(e: Event): (es: seq<Event>)
    ensures 1 <= |es| <= 2 && es[0] == e
    ensures |es| == 2 <==> e.Success?
    ensures |es| == 2 ==> es[1] == Delay(PacingMs)
  {
    if e.Success? then [e, Delay(PacingMs)] else [e]
  }

  /** The loop body's verdicts for all clients, by list position. Each depends
      only on its own client and the API's answer for it. */
  function Outcomes(clients: seq<Calls.Client>, reply: nat -> Calls.ApiReply): (vs: seq<Event>)
    ensures |vs| == |clients|
  {
    seq(|clients|, i requires 0 <= i < |clients| => Verdict(clients, reply, i))
  }

  /** `startCallingCampaign` on an already fetched client list (lines 140-163):
      the iterations in list order, each emitting its events. An empty list gives
      an empty trace, and no trace ends on a success without its pause, not even
      after the last client. */
  function Run(clients: seq<Calls.Client>, reply: nat -> Calls.ApiReply): (trace: seq<Event>)
    ensures clients == [] ==> trace == []
    ensures |trace| >= |clients|
    ensures trace == [] || !trace[|trace| - 1].Success?
  {
    OutcomesNoDelays(clients, reply);
    PaceShape(Outcomes(clients, reply));
    Pace(Outcomes(clients, reply))
  }

  /** The whole campaign, fetch included: `getClientData` gives the clients
      (an empty list when the sheet read failed) and the loop runs over them. */
  function RunCampaign(fetched: Option<seq<Sheets.Row>>, reply: nat -> Calls.ApiReply): (trace: seq<Event>)
    ensures fetched.None? ==> trace == []
    ensures fetched.Some? && |fetched.value| <= 1 ==> trace == []
  {
    Run(Sheets.GetClientData(fetched), reply)
  }

  // ------------------------------------------------------------------ reading a trace

  /** The trace without its pauses: one verdict per visited client. */
  function Verdicts(t: seq<Event>): (v: seq<Event>)
    ensures |v| <= |t|
    ensures forall k :: 0 <= k < |v| ==> !v[k].Delay?
  {
    if t == [] then []
    else (if t[0].Delay? then [] else [t[0]]) + Verdicts(t[1..])
  }

  /** The positions of the clients a call was attempted for, in trace order. */
  function Attempts(t: seq<Event>): seq<nat> {
    if t == [] then []
    else (if t[0].Fail? || t[0].Success? then [t[0].client] else []) + Attempts(t[1..])
  }

  /** Reference: the positions from `i` on whose client has a phone number, ascending. */
  function WithPhoneFrom(clients: seq<Calls.Client>, i: nat): (r: seq<nat>)
    requires i <= |clients|
    ensures forall k :: 0 <= k < |r| ==> i <= r[k] < |clients| && HasPhone(clients[r[k]])
    decreases |clients| - i
  {
    if i == |clients| then []
    else (if HasPhone(clients[i]) then [i] else []) + WithPhoneFrom(clients, i + 1)
  }

  function CountSuccesses(t: seq<Event>): nat {
    if t == [] then 0 else (if t[0].Success? then 1 else 0) + CountSuccesses(t[1..])
  }

  /** The sum of all pauses in the trace, in milliseconds. */
  function TotalDelay(t: seq<Event>): nat {
    if t == [] then 0 else (if t[0].Delay? then t[0].ms else 0) + TotalDelay(t[1..])
  }

  /** Pacing discipline: every success is followed at once by a 5000 ms pause,
      and every pause comes right after a success. */
  ghost predicate Paced(t: seq<Event>) {
    && (forall k :: 0 <= k < |t| && t[k].Success? ==> k + 1 < |t| && t[k + 1] == Delay(PacingMs))
    && (forall k :: 0 <= k < |t| && t[k].Delay? ==> 0 < k && t[k - 1].Success?)
  }

  // ------------------------------------------------------------------ trace algebra

  lemma {:induction false} VerdictsConcat(a: seq<Event>, b: seq<Event>)
    ensures Verdicts(a + b) == Verdicts(a) + Verdicts(b)
  {
    if a != [] {
      assert (a + b)[0] == a[0];
      assert (a + b)[1..] == a[1..] + b;
      VerdictsConcat(a[1..], b);
    } else {
      assert a + b == b;
    }
  }

  lemma {:induction false} AttemptsConcat(a: seq<Event>, b: seq<Event>)
    ensures Attempts(a + b) == Attempts(a) + Attempts(b)
  {
    if a != [] {
      assert (a + b)[0] == a[0];
      assert (a + b)[1..] == a[1..] + b;
      AttemptsConcat(a[1..], b);
    } else {
      assert a + b == b;
    }
  }

  lemma {:induction false} CountsConcat(a: seq<Event>, b: seq<Event>)
    ensures CountSuccesses(a + b) == CountSuccesses(a) + CountSuccesses(b)
    ensures TotalDelay(a + b) == TotalDelay(a) + TotalDelay(b)
  {
    if a != [] {
      assert (a + b)[0] == a[0];
      assert (a + b)[1..] == a[1..] + b;
      CountsConcat(a[1..], b);
    } else {
      assert a + b == b;
    }
  }

  lemma PacedConcat(a: seq<Event>, b: seq<Event>)
    requires Paced(a) && Paced(b)
    ensures Paced(a + b)
  {
    var t := a + b;
    forall k | 0 <= k < |t| && t[k].Success?
      ensures k + 1 < |t| && t[k + 1] == Delay(PacingMs)
    {
      if k < |a| { assert a[k].Success?; } else { assert b[k - |a|].Success?; }
    }
    forall k | 0 <= k < |t| && t[k].Delay?
      ensures 0 < k && t[k - 1].Success?
    {
      if k < |a| {
        assert a[k].Delay?;
      } else {
        assert b[k - |a|].Delay?;
        if k == |a| { assert false; }
      }
    }
  }

  // ------------------------------------------------------------------ the loop over any verdicts

  /** No pause among the verdicts. */
  predicate NoDelays(vs: seq<Event>) {
    forall k :: 0 <= k < |vs| ==> !vs[k].Delay?
  }

  /** The events the loop emits for a list of verdicts, one iteration each: one
      event per verdict and one pause per success. */
  function Pace(vs: seq<Event>): (t: seq<Event>)
    ensures |t| == |vs| + CountSuccesses(vs)
  {
    if vs == [] then [] else Emit(vs[0]) + Pace(vs[1..])
  }

  /** One iteration keeps the pacing discipline, contributes exactly its verdict,
      and does not end on a success. */
  lemma EmitShape(e: Event)
    requires !e.Delay?
    ensures Paced(Emit(e))
    ensures Verdicts(Emit(e)) == [e]
    ensures !Emit(e)[|Emit(e)| - 1].Success?
  {
    if e.Success? {
      assert Emit(e)[1..] == [Delay(PacingMs)];
      assert Emit(e)[1..][1..] == [];
    } else {
      assert Emit(e)[1..] == [];
    }
  }

  /** The pause an iteration adds is counted neither as an attempt nor as a
      success, and it lasts `PacingMs` exactly when the verdict is a success. */
  lemma EmitCounts(e: Event)
    requires !e.Delay?
    ensures Attempts(Emit(e)) == Attempts([e])
    ensures CountSuccesses(Emit(e)) == CountSuccesses([e])
    ensures TotalDelay(Emit(e)) == PacingMs * CountSuccesses([e])
  {
    assert [e][1..] == [];
    if e.Success? {
      var d := [Delay(PacingMs)];
      assert Emit(e) == [e] + d;
      assert d[1..] == [];
      AttemptsConcat([e], d);
      CountsConcat([e], d);
    } else {
      assert Emit(e) == [e];
    }
  }

  /** At least one event per verdict, and never a success at the end. */
  lemma {:induction false} PaceShape(vs: seq<Event>)
    requires NoDelays(vs)
    ensures |Pace(vs)| >= |vs|
    ensures Pace(vs) == [] || !Pace(vs)[|Pace(vs)| - 1].Success?
  {
    if vs != [] {
      EmitShape(vs[0]);
      PaceShape(vs[1..]);
      EndsWithoutSuccess(Emit(vs[0]), Pace(vs[1..]));
    }
  }

  /** Two traces that do not end on a success, the first non-empty, joined. */
  lemma EndsWithoutSuccess(a: seq<Event>, b: seq<Event>)
    requires a != [] && !a[|a| - 1].Success?
    requires b == [] || !b[|b| - 1].Success?
    ensures var t := a + b; t != [] && !t[|t| - 1].Success?
  {
    var t := a + b;
    if b != [] {
      assert t[|t| - 1] == b[|b| - 1];
    } else {
      assert t == a;
    }
  }

  /** The loop keeps the pacing discipline. */
  lemma {:induction false} PacePaced(vs: seq<Event>)
    requires NoDelays(vs)
    ensures Paced(Pace(vs))
  {
    if vs != [] {
      EmitShape(vs[0]);
      PacePaced(vs[1..]);
      PacedConcat(Emit(vs[0]), Pace(vs[1..]));
    }
  }

  /** Dropping the pauses gives back the verdicts, in order. */
  lemma {:induction false} PaceVerdicts(vs: seq<Event>)
    requires NoDelays(vs)
    ensures Verdicts(Pace(vs)) == vs
  {
    if vs != [] {
      EmitShape(vs[0]);
      PaceVerdicts(vs[1..]);
      VerdictsConcat(Emit(vs[0]), Pace(vs[1..]));
      assert vs == [vs[0]] + vs[1..];
    }
  }

  /** The pauses add no attempt and no success, and exactly `PacingMs` per success. */
  lemma {:induction false} PaceCounts(vs: seq<Event>)
    requires NoDelays(vs)
    ensures Attempts(Pace(vs)) == Attempts(vs)
    ensures CountSuccesses(Pace(vs)) == CountSuccesses(vs)
    ensures TotalDelay(Pace(vs)) == PacingMs * CountSuccesses(vs)
  {
    if vs != [] {
      EmitCounts(vs[0]);
      PaceCounts(vs[1..]);
      AttemptsConcat(Emit(vs[0]), Pace(vs[1..]));
      CountsConcat(Emit(vs[0]), Pace(vs[1..]));
      assert vs == [vs[0]] + vs[1..];
      AttemptsConcat([vs[0]], vs[1..]);
      CountsConcat([vs[0]], vs[1..]);
    }
  }

  // ------------------------------------------------------------------ properties of the campaign

  lemma OutcomesNoDelays(clients: seq<Calls.Client>, reply: nat -> Calls.ApiReply)
    ensures NoDelays(Outcomes(clients, reply))
  {
  }

  /** The verdict `e` is the right one for the client at position `j`: stated
      against the guard, the number clean-up and the API's answer. */
  ghost predicate VerdictFor(clients: seq<Calls.Client>, reply: nat -> Calls.ApiReply, j: nat, e: Event)
    requires j < |clients|
  {
    var c := clients[j];
    && !e.Delay?
    && e.client == j
    && (e.Skip? <==> !HasPhone(c))
    && (e.Success? <==> HasPhone(c) && Phone.Normalize(c["phone_number"]).Some? && reply(j).Created?)
    && (e.Success? ==> e.callId == reply(j).id)
  }

  /** A client with a phone number is called with its cleaned-up number; the call
      succeeds exactly when the clean-up accepts the number and the API creates
      the call, and the success carries the API's call id. */
  lemma VerdictCorrect(clients: seq<Calls.Client>, reply: nat -> Calls.ApiReply, i: nat)
    requires i < |clients|
    ensures VerdictFor(clients, reply, i, Verdict(clients, reply, i))
  {
    var c := clients[i];
    if HasPhone(c) {
      assert Calls.Field(c, "phone_number") != "";
    }
  }

  /** Failures never stop the loop: the trace holds exactly one verdict per
      client, in list order, each the right one for its client. */
  lemma CampaignVerdicts(clients: seq<Calls.Client>, reply: nat -> Calls.ApiReply)
    ensures |Verdicts(Run(clients, reply))| == |clients|
    ensures forall k :: 0 <= k < |clients| ==> VerdictFor(clients, reply, k, Verdicts(Run(clients, reply))[k])
  {
    var vs := Outcomes(clients, reply);
    OutcomesNoDelays(clients, reply);
    PaceVerdicts(vs);
    forall k | 0 <= k < |clients| ensures VerdictFor(clients, reply, k, vs[k]) {
      VerdictCorrect(clients, reply, k);
    }
  }

  /** The verdicts from position `i` on attempt a call for exactly the clients
      with a phone number. */
  lemma {:induction false} OutcomesAttempts(clients: seq<Calls.Client>, reply: nat -> Calls.ApiReply, i: nat)
    requires i <= |clients|
    ensures Attempts(Outcomes(clients, reply)[i..]) == WithPhoneFrom(clients, i)
    decreases |clients| - i
  {
    if i < |clients| {
      var vs := Outcomes(clients, reply);
      OutcomesAttempts(clients, reply, i + 1);
      assert vs[i..][1..] == vs[i + 1..];
      assert vs[i..][0] == Verdict(clients, reply, i);
    }
  }

  /** Calls are attempted, in list order, for exactly the clients with a phone number. */
  lemma CampaignAttempts(clients: seq<Calls.Client>, reply: nat -> Calls.ApiReply)
    ensures Attempts(Run(clients, reply)) == WithPhoneFrom(clients, 0)
  {
    var vs := Outcomes(clients, reply);
    OutcomesNoDelays(clients, reply);
    PaceCounts(vs);
    OutcomesAttempts(clients, reply, 0);
    assert vs[0..] == vs;
  }

  /** Every success is followed at once by one 5000 ms pause, every pause follows
      a success, and failures and skips cost no time. */
  lemma CampaignDelay(clients: seq<Calls.Client>, reply: nat -> Calls.ApiReply)
    ensures Paced(Run(clients, reply))
    ensures TotalDelay(Run(clients, reply)) == PacingMs * CountSuccesses(Run(clients, reply))
  {
    var vs := Outcomes(clients, reply);
    OutcomesNoDelays(clients, reply);
    PacePaced(vs);
    PaceCounts(vs);
  }
}
