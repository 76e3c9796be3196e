/** DNS messages: as values, and as the mutable objects the code passes around. */
module DnsMessages {
  import opened Wrappers

  const TYPE_A := 1
  const TYPE_AAAA := 28

  const OPCODE_QUERY := 0

  const RCODE_SUCCESS := 0
  const RCODE_SERVER_FAILURE := 2

  datatype Question = Question(name: string, qtype: nat)

  /** A resource record; data stands for its type-specific part. */
  datatype RR = RR(name: string, rrtype: nat, ttl: nat, data: string)

  /** The header fields that the program sets or copies. */
  datatype Header = Header(id: nat, response: bool, opcode: nat, recursionDesired: bool, checkingDisabled: bool,
                           authoritative: bool, rcode: nat)

  datatype Message = Message(header: Header, question: seq<Question>, answer: seq<RR>)

  const EMPTY_MESSAGE := Message(Header(0, false, OPCODE_QUERY, false, false, false, RCODE_SUCCESS), [], [])

  /** The header of a reply: for a standard query it carries two flags of the request. */
  function ReplyHeader(h: Header, request: Header): Header {
    var flagged := h.(recursionDesired := request.recursionDesired, checkingDisabled := request.checkingDisabled);
    var copied := if request.opcode == OPCODE_QUERY then flagged else h;
    copied.(id := request.id, response := true, opcode := request.opcode, rcode := RCODE_SUCCESS)
  }

  /** The message as a reply to a request: its answers are kept. */
  function AsReply(m: Message, request: Message): Message {
    m.(header := ReplyHeader(m.header, request.header),
       question := if |request.question| > 0 then [request.question[0]] else m.question)
  }

  /** The message goes back to the request: its identifier, its operation, its first question. */
  predicate Fits(m: Message, request: Message)
    requires request.question != []
  {
    && m.header.id == request.header.id && m.header.opcode == request.header.opcode && m.header.response
    && m.question == [request.question[0]]
  }

  /** Beyond that the reply has the records it had as a message, no error code, and, to a standard
      query, the flags of the request; the rest is left as it was. */
  predicate RepliesWith(m: Message, sent: Message, request: Message)
    requires request.question != []
  {
    && Fits(m, request) && m.answer == sent.answer && m.header.rcode == 0
    && m.header.authoritative == sent.header.authoritative
    && var flags := if request.header.opcode == 0 then request.header else sent.header;
    && m.header.recursionDesired == flags.recursionDesired
    && m.header.checkingDisabled == flags.checkingDisabled
  }

  lemma ReplyMeaning(m: Message, request: Message)
    requires request.question != []
    ensures RepliesWith(AsReply(m, request), m, request)
  {
  }

  class Msg {
    var header: Header
    var question: seq<Question>
    var answer: seq<RR>

    constructor (m: Message)
      ensures Value() == m
    {
      header, question, answer := m.header, m.question, m.answer;
    }

    function Value(): Message
      reads this
    {
      Message(header, question, answer)
    }

    method Copy() returns (c: Msg)
      ensures fresh(c) && c.Value() == Value()
    {
      c := new Msg(Message(header, question, answer));
    }

    method SetReply(request: Msg)
      requires request != this
      modifies this
      ensures Value() == AsReply(old(Value()), request.Value())
      ensures request.question != [] ==> RepliesWith(Value(), old(Value()), request.Value())
    {
      header := header.(id := request.header.id, response := true, opcode := request.header.opcode);
      if header.opcode == OPCODE_QUERY {
        header := header.(recursionDesired := request.header.recursionDesired);
        header := header.(checkingDisabled := request.header.checkingDisabled);
      }
      header := header.(rcode := RCODE_SUCCESS);
      if |request.question| > 0 {
        question := [request.question[0]];
      }
    }
  }

  /** The data of the first A record. */
  function FirstA(answer: seq<RR>): Option<string> {
    if answer == [] then None
    else if answer[0].rrtype == TYPE_A then Some(answer[0].data)
    else FirstA(answer[1..])
  }

  /** Record i is of type A, and none before it is. */
  predicate FirstAAt(answer: seq<RR>, i: int) {
    0 <= i < |answer| && answer[i].rrtype == 1 && forall j :: 0 <= j < i ==> answer[j].rrtype != 1
  }

  lemma {:induction false} FirstAIff(answer: seq<RR>, data: string)
    ensures FirstA(answer) == Some(data) <==> exists i :: FirstAAt(answer, i) && answer[i].data == data
  {
    if answer != [] && answer[0].rrtype != TYPE_A {
      FirstAIff(answer[1..], data);
      if i :| FirstAAt(answer[1..], i) && answer[1..][i].data == data {
        assert FirstAAt(answer, i + 1);
      }
      if i :| FirstAAt(answer, i) && answer[i].data == data {
        assert FirstAAt(answer[1..], i - 1);
      }
    } else if answer != [] {
      assert FirstA(answer) == Some(data) ==> FirstAAt(answer, 0);
    }
  }

  method ExtractAnswerIP(answer: seq<RR>) returns (ip: Option<string>)
    ensures ip == FirstA(answer)
    ensures forall i :: FirstAAt(answer, i) ==> ip == Some(answer[i].data)
    ensures ip == None <==> forall i :: 0 <= i < |answer| ==> answer[i].rrtype != 1
  {
    for i := 0 to |answer|
      invariant FirstA(answer) == FirstA(answer[i..])
      invariant forall j :: 0 <= j < i ==> answer[j].rrtype != TYPE_A
    {
      if answer[i].rrtype == TYPE_A {
        return Some(answer[i].data);
      }
      assert answer[i..][1..] == answer[i + 1..];
    }
    return None;
  }
}
