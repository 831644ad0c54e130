/** The flow-authorization policy of the SDN controller: exact-match lookup of
    a flow in the ledger, and the decision rule applied to an HTTP request
    seen on a TCP flow (query flows must already be recorded; admission
    requests are mined into the ledger). */
module NetworkController {

  import opened Wrappers
  import opened PyStrings
  import opened Ledger

  /** Some block's payload equals `flow` exactly. */
  predicate InChain(chain: seq<Block>, flow: string)
  {
    exists i :: 0 <= i < |chain| && chain[i].transactions == flow
  }

  /** `flow_is_allowed`: a linear scan of the chain for a block whose payload
      equals `flow`. It only reads the chain it is given. */
  method FlowIsAllowed(chain: seq<Block>, flow: string) returns (allowed: bool)
    ensures allowed <==> InChain(chain, flow)
  {
    var i := 0;
    while i < |chain|
      invariant 0 <= i <= |chain|
      invariant forall j :: 0 <= j < i ==> chain[j].transactions != flow
    {
      if chain[i].transactions == flow {
        return true;
      }
      i := i + 1;
    }
    return false;
  }

  /** Appending one block adds exactly its payload to the set of recorded flows. */
  lemma InChainAppend(chain: seq<Block>, b: Block, flow: string)
    ensures InChain(chain + [b], flow) <==> InChain(chain, flow) || b.transactions == flow
  {
    var c := chain + [b];
    if InChain(chain, flow) {
      var i :| 0 <= i < |chain| && chain[i].transactions == flow;
      assert c[i] == chain[i];
    }
    if b.transactions == flow {
      assert c[|chain|] == b;
    }
    if InChain(c, flow) && b.transactions != flow {
      var i :| 0 <= i < |c| && c[i].transactions == flow;
      assert i < |chain| && c[i] == chain[i];
    }
  }

  /** On a fresh ledger only the genesis payload, the empty string, is recorded. */
  lemma FreshLedgerAllowsOnlyEmpty(h: Hasher, now: Timestamp, difficulty: int, flow: string)
    ensures InChain(Init(h, now, difficulty).chain, flow) <==> flow == ""
  {
  }

  /** Matching is exact: with only "10.0.0.1 -> 10.0.0.3" recorded after
      genesis, neither a different destination nor a prefix of the recorded
      flow is allowed. */
  lemma ExactMatchOnly(chain: seq<Block>)
    requires |chain| == 2
    requires chain[0].transactions == "" && chain[1].transactions == "10.0.0.1 -> 10.0.0.3"
    ensures InChain(chain, "10.0.0.1 -> 10.0.0.3")
    ensures !InChain(chain, "10.0.0.1 -> 10.0.0.2")
    ensures !InChain(chain, "10.0.0.1 -> 10.0.0.")
  {
  }

  /** The flow key `f"{src} -> {dst}"`, from the textual source and destination addresses. */
  function FlowKey(src: string, dst: string): (k: string)
    ensures |k| == |src| + 4 + |dst|
    ensures k[..|src|] == src && k[|src|..|src| + 4] == " -> " && k[|src| + 4..] == dst
  {
    src + " -> " + dst
  }

  /** For a source address without spaces, the first space of the flow key
      is the one that opens the separator. */
  lemma FlowKeyFirstSpace(src: string, dst: string)
    requires ' ' !in src
    ensures Find(FlowKey(src, dst), " ") == |src|
  {
    var k := FlowKey(src, dst);
    assert k[|src|..|src| + 1] == " ";
    forall j | 0 <= j < |src|
      ensures !OccursAt(k, " ", j)
    {
      assert k[j..j + 1][0] == src[j];
    }
    assert OccursAt(k, " ", |src|);
    assert FirstAt(k, " ", |src|);
    FirstAtUnique(k, " ");
  }

  /** For addresses without spaces (such as dotted IPv4 text), the flow key
      determines the source and destination, so exact matching on keys is
      exact matching on address pairs. */
  lemma FlowKeyInjective(src1: string, dst1: string, src2: string, dst2: string)
    requires ' ' !in src1 && ' ' !in src2
    requires FlowKey(src1, dst1) == FlowKey(src2, dst2)
    ensures src1 == src2 && dst1 == dst2
  {
    var k := FlowKey(src1, dst1);
    FlowKeyFirstSpace(src1, dst1);
    FlowKeyFirstSpace(src2, dst2);
    assert |src1| == |src2|;
    assert src1 == k[..|src1|] == src2;
    assert dst1 == k[|src1| + 4..] == dst2;
  }

  /** In a request line starting with "GET", "HTTP" is first found at position 3 or later. */
  lemma HttpAfterGet(payload: string)
    requires StartsWith(payload, "GET")
    ensures Find(payload, "HTTP") != -1 ==> Find(payload, "HTTP") >= 3
  {
    forall j | 0 <= j < 3
      ensures !OccursAt(payload, "HTTP", j)
    {
      assert payload[j] == payload[..3][j] == "GET"[j] != 'H';
      if j + 4 <= |payload| {
        assert payload[j..j + 4][0] == payload[j];
      }
    }
  }

  /** The route of an HTTP GET request: `tcp_pl[4:tcp_pl.find("HTTP") - 1]`
      when `tcp_pl.find("GET") == 0`, and nothing otherwise. */
  function Route(payload: string): (r: Option<string>)
    ensures r.Some? <==> StartsWith(payload, "GET")
    ensures r.Some? && !Occurs(payload, "HTTP") ==>
              r.value == (if |payload| - 2 > 4 then payload[4..|payload| - 2] else "")
    ensures forall p :: r.Some? && FirstAt(payload, "HTTP", p) ==>
              r.value == (if p - 1 > 4 then payload[4..p - 1] else "")
  {
    OccursAtZero(payload, "GET");
    if Find(payload, "GET") == 0 then
      HttpAfterGet(payload);
      FirstAtUnique(payload, "HTTP");
      Some(Slice(payload, 4, Find(payload, "HTTP") - 1))
    else
      None
  }

  /** What a packet asks of the ledger. */
  datatype Action =
    | NoCheck   // not a GET, or a route that names neither "data" nor "add"
    | Query     // the route contains "data": the flow must already be recorded
    | Admit     // the route contains "add" but not "data": record the flow

  /** The decision rule's classification of a TCP payload. The "data" test
      comes first, so a route naming both is a query and never mines. */
  function Classify(payload: string): (a: Action)
    ensures a == Query <==> Route(payload).Some? && Occurs(Route(payload).value, "data")
    ensures a == Admit <==> Route(payload).Some? && !Occurs(Route(payload).value, "data")
                            && Occurs(Route(payload).value, "add")
    ensures a == NoCheck <==> Route(payload).None?
                              || (!Occurs(Route(payload).value, "data") && !Occurs(Route(payload).value, "add"))
  {
    match Route(payload)
    case None => NoCheck
    case Some(route) =>
      if In("data", route) then Query
      else if In("add", route) then Admit
      else NoCheck
  }

  /** "HTTP" is first found at `p` in a line that has no 'H' before `p`. */
  lemma FirstHttpAt(line: string, p: int)
    requires 0 <= p && OccursAt(line, "HTTP", p)
    requires forall j :: 0 <= j < p ==> line[j] != 'H'
    ensures Find(line, "HTTP") == p
  {
    forall j | 0 <= j < p
      ensures !OccursAt(line, "HTTP", j)
    {
      if j + 4 <= |line| {
        assert line[j..j + 4][0] == line[j];
      }
    }
    assert FirstAt(line, "HTTP", p);
    FirstAtUnique(line, "HTTP");
  }

  /** A typical query line: the route lies between "GET " and the space
      before "HTTP", and names "data", so the line is a query. */
  lemma DataRequestExample(line: string)
    requires line == "GET /data HTTP/1.1"
    ensures Route(line) == Some("/data")
    ensures Classify(line) == Query
  {
    assert line[..3] == "GET";
    assert line[10..14] == "HTTP";
    FirstHttpAt(line, 10);
    var route := line[4..9];
    assert route == "/data" by {
      assert forall i :: 0 <= i < 5 ==> route[i] == line[4 + i];
    }
    assert route[1..5] == "data";
    assert OccursAt(route, "data", 1);
  }

  /** Whether the triggering packet goes on to the MAC-learning forwarding
      step or is dropped. */
  datatype Verdict = Forward | Drop

  /** The ledger part of `act_like_switch` for a TCP packet from `src` to
      `dst` carrying `payload`: a query whose flow is not recorded is dropped;
      an admission request mines the flow and, since mining reports success,
      forwards; everything else forwards and leaves the ledger alone. */
  method ActLikeSwitch(h: Hasher, L: Blockchain, src: string, dst: string, payload: string, now: Timestamp)
    returns (v: Verdict, L': Blockchain)
    requires Classify(payload) == Admit ==>
               && |L.chain| > 0 && LastBlock(L).hash.Some?
               && Minable(h, L.difficulty, Candidate(L, FlowKey(src, dst), now))
    ensures Classify(payload) != Admit ==> L' == L
    ensures Classify(payload) == NoCheck ==> v == Forward
    ensures Classify(payload) == Query ==> (v == Forward <==> InChain(L.chain, FlowKey(src, dst)))
    ensures Classify(payload) == Admit ==>
              && v == Forward
              && InChain(L'.chain, FlowKey(src, dst))
              && |L'.chain| == |L.chain| + 1 && L'.chain[..|L.chain|] == L.chain
              && LastBlock(L').transactions == FlowKey(src, dst)
    ensures L'.difficulty == L.difficulty
    ensures Valid(h, L) ==> Valid(h, L')
    ensures Contiguous(L.chain) ==> Contiguous(L'.chain)
  {
    var flow := FlowKey(src, dst);
    L' := L;
    v := Forward;
    var action := Classify(payload);
    if action == Query {
      var allowed := FlowIsAllowed(L.chain, flow);
      if !allowed {
        v := Drop;
      }
    } else if action == Admit {
      var ok, appended;
      ok, appended, L' := Mine(h, L, flow, now);
      v := if ok then Forward else Drop;
      assert L'.chain == L.chain + [LastBlock(L')];
      InChainAppend(L.chain, LastBlock(L'), flow);
    }
  }
}
