/** Forwarding to upstream servers in order, with fallback. */
module Upstream {
  import opened Wrappers
  import opened DnsMessages

  /** What the exchange with one upstream gives. */
  datatype Exchange = Failed | Answered(reply: Message)

  /** The reply of the first upstream that answers. */
  function FirstAnswer(upstreams: seq<Exchange>): Option<Message> {
    if upstreams == [] then None
    else if upstreams[0].Answered? then Some(upstreams[0].reply)
    else FirstAnswer(upstreams[1..])
  }

  /** Asks the upstreams in order up to the first that answers; nil when all fail. Every call
      builds a message of its own. */
  method Resolve(upstreams: seq<Exchange>) returns (resp: Msg?, asked: nat)
    ensures resp == null <==> FirstAnswer(upstreams) == None
    ensures resp != null ==> fresh(resp) && FirstAnswer(upstreams) == Some(resp.Value())
    ensures asked <= |upstreams| && forall i :: 0 <= i < asked - 1 ==> upstreams[i].Failed?
    ensures if resp == null then asked == |upstreams| else asked > 0 && upstreams[asked - 1] == Answered(resp.Value())
    ensures resp == null ==> forall i :: 0 <= i < |upstreams| ==> upstreams[i].Failed?
  {
    asked := 0;
    while asked < |upstreams|
      invariant asked <= |upstreams|
      invariant forall i :: 0 <= i < asked ==> upstreams[i].Failed?
      invariant FirstAnswer(upstreams) == FirstAnswer(upstreams[asked..])
    {
      var exchange := upstreams[asked];
      assert upstreams[asked..][1..] == upstreams[asked + 1..];
      asked := asked + 1;
      if exchange.Answered? {
        resp := new Msg(exchange.reply);
        return;
      }
    }
    resp := null;
  }

  lemma {:induction false} AnsweredIff(upstreams: seq<Exchange>)
    ensures FirstAnswer(upstreams).Some? <==> exists i :: 0 <= i < |upstreams| && upstreams[i].Answered?
  {
    if upstreams != [] && upstreams[0].Failed? {
      AnsweredIff(upstreams[1..]);
      if i :| 0 <= i < |upstreams| && upstreams[i].Answered? {
        assert upstreams[1..][i - 1].Answered?;
      }
    }
  }

  /** A message is returned exactly when some upstream sent it and all before it failed. */
  lemma {:induction false} FirstAnswerIff(upstreams: seq<Exchange>, m: Message)
    ensures FirstAnswer(upstreams) == Some(m) <==>
            exists i ::
              && 0 <= i < |upstreams| && upstreams[i] == Answered(m)
              && forall j :: 0 <= j < i ==> upstreams[j].Failed?
  {
    if upstreams != [] && upstreams[0].Failed? {
      var rest := upstreams[1..];
      FirstAnswerIff(rest, m);
      if i :| 0 <= i < |rest| && rest[i] == Answered(m) && forall j :: 0 <= j < i ==> rest[j].Failed? {
        assert upstreams[i + 1] == Answered(m);
        forall j | 0 <= j < i + 1 ensures upstreams[j].Failed? {
          if j > 0 { assert rest[j - 1].Failed?; }
        }
      }
      if i :| 0 <= i < |upstreams| && upstreams[i] == Answered(m) && forall j :: 0 <= j < i ==> upstreams[j].Failed? {
        assert i > 0 && rest[i - 1] == Answered(m);
        forall j | 0 <= j < i - 1 ensures rest[j].Failed? {
          assert upstreams[j + 1].Failed?;
        }
      }
    } else if upstreams != [] {
      assert upstreams[0] == Answered(upstreams[0].reply);
    }
  }
}
