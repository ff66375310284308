/** The call-graph builder: the log, line by line, becomes a map from each
    caller to the distinct methods it calls. */
module CallGraph {
  import opened Common
  import opened MethodId
  import opened Records

  /** `dict[Method, list[Method]]`: the callers in dictionary (first
      insertion) order and, for each, its callee list. */
  datatype Graph = Graph(callers: seq<Method>, edges: map<Method, seq<Method>>)

  /** The shape every graph of the builder has: the callers are exactly the
      keys, listed once each, and no callee list repeats a method. */
  ghost predicate Valid(g: Graph) {
    && NoDuplicates(g.callers)
    && (forall m :: m in g.edges <==> m in g.callers)
    && (forall m | m in g.edges :: NoDuplicates(g.edges[m]))
  }

  const EmptyGraph: Graph := Graph([], map[])

  /** `method_call_mapping[caller].add(callee)`, creating the caller's entry
      on first sight. The callee set is kept as a list in first-insertion
      order, one admissible enumeration of the source's `set`. */
  function AddEdge(g: Graph, caller: Method, callee: Method): (r: Graph)
    requires Valid(g)
    ensures Valid(r)
    ensures forall m :: m in r.edges <==> m in g.edges || m == caller
    ensures forall m, c | m in r.edges ::
              c in r.edges[m] <==> (m in g.edges && c in g.edges[m]) || (m == caller && c == callee)
  {
    if caller in g.edges then
      if callee in g.edges[caller] then g
      else Graph(g.callers, g.edges[caller := g.edges[caller] + [callee]])
    else Graph(g.callers + [caller], g.edges[caller := [callee]])
  }

  /** The parse of a log line is a call record from `m` (to `c`). */
  predicate HasCaller(p: LineParse, m: Method) {
    p.Parsed? && p.record.caller == m
  }

  predicate HasEdge(p: LineParse, m: Method, c: Method) {
    p.Parsed? && p.record.caller == m && p.record.callee == c
  }

  /** The loop of `construct_method_call_mapping` over the parsed lines of
      the log. The first malformed record aborts the whole build with its
      error. Otherwise the keys are exactly the callers of the record lines
      and each caller's callee list holds exactly the callees recorded for
      it, once each; lines that are not records contribute nothing. */
  function BuildFrom(ps: seq<LineParse>): (r: Result<Graph, ParseError>)
    ensures r.Ok? <==> forall i | 0 <= i < |ps| :: !ps[i].Malformed?
    ensures r.Err? ==>
              exists i | 0 <= i < |ps| ::
                && ps[i] == Malformed(r.error)
                && forall j | 0 <= j < i :: !ps[j].Malformed?
    ensures r.Ok? ==> Valid(r.value)
    ensures r.Ok? ==>
              forall m :: m in r.value.edges <==> exists i | 0 <= i < |ps| :: HasCaller(ps[i], m)
    ensures r.Ok? ==>
              forall m, c | m in r.value.edges ::
                c in r.value.edges[m] <==> exists i | 0 <= i < |ps| :: HasEdge(ps[i], m, c)
  {
    if |ps| == 0 then Ok(EmptyGraph)
    else
      var init, last := ps[..|ps| - 1], ps[|ps| - 1];
      var acc := BuildFrom(init);
      StepExtends(ps, acc);
      Step(acc, last)
  }

  /** What `BuildFrom` promises of the lines before the last, together with
      one more `Step`, is what it promises of all lines. */
  lemma StepExtends(ps: seq<LineParse>, acc: Result<Graph, ParseError>)
    requires |ps| > 0
    requires var init := ps[..|ps| - 1];
             && (acc.Ok? <==> forall i | 0 <= i < |init| :: !init[i].Malformed?)
             && (acc.Err? ==>
                   exists i | 0 <= i < |init| ::
                     && init[i] == Malformed(acc.error)
                     && forall j | 0 <= j < i :: !init[j].Malformed?)
             && (acc.Ok? ==> Valid(acc.value))
             && (acc.Ok? ==>
                   forall m :: m in acc.value.edges <==> exists i | 0 <= i < |init| :: HasCaller(init[i], m))
             && (acc.Ok? ==>
                   forall m, c | m in acc.value.edges ::
                     c in acc.value.edges[m] <==> exists i | 0 <= i < |init| :: HasEdge(init[i], m, c))
    ensures var r := Step(acc, ps[|ps| - 1]);
            && (r.Ok? <==> forall i | 0 <= i < |ps| :: !ps[i].Malformed?)
            && (r.Err? ==>
                  exists i | 0 <= i < |ps| ::
                    && ps[i] == Malformed(r.error)
                    && forall j | 0 <= j < i :: !ps[j].Malformed?)
            && (r.Ok? ==>
                  forall m :: m in r.value.edges <==> exists i | 0 <= i < |ps| :: HasCaller(ps[i], m))
            && (r.Ok? ==>
                  forall m, c | m in r.value.edges ::
                    c in r.value.edges[m] <==> exists i | 0 <= i < |ps| :: HasEdge(ps[i], m, c))
  {
    var init := ps[..|ps| - 1];
    assert forall i | 0 <= i < |init| :: init[i] == ps[i];
  }

  /** One iteration of the loop: skip a non-record, abort on a malformed
      record, add the edge of a record. */
  function Step(acc: Result<Graph, ParseError>, p: LineParse): (r: Result<Graph, ParseError>)
    requires acc.Ok? ==> Valid(acc.value)
    ensures r.Ok? <==> acc.Ok? && !p.Malformed?
    ensures r.Err? ==> if acc.Err? then r.error == acc.error else p == Malformed(r.error)
    ensures r.Ok? ==> Valid(r.value)
    ensures r.Ok? ==> forall m :: m in r.value.edges <==> m in acc.value.edges || HasCaller(p, m)
    ensures r.Ok? ==>
              forall m, c | m in r.value.edges ::
                c in r.value.edges[m] <==> (m in acc.value.edges && c in acc.value.edges[m]) || HasEdge(p, m, c)
  {
    match acc
    case Err(e) => Err(e)
    case Ok(g) =>
      match p
      case NotRecord => Ok(g)
      case Malformed(e) => Err(e)
      case Parsed(rec) => Ok(AddEdge(g, rec.caller, rec.callee))
  }

  lemma BuildFromLast(ps: seq<LineParse>)
    requires |ps| > 0
    ensures BuildFrom(ps) == Step(BuildFrom(ps[..|ps| - 1]), ps[|ps| - 1])
  {
  }

  /** Every line of the log through `extract_method_record`. */
  function ParseLines(lines: seq<string>): (ps: seq<LineParse>)
    ensures |ps| == |lines|
    ensures forall i | 0 <= i < |lines| :: ps[i] == ExtractMethodRecord(lines[i])
  {
    seq(|lines|, i requires 0 <= i < |lines| => ExtractMethodRecord(lines[i]))
  }

  /** `construct_method_call_mapping` over the lines of the log: it fails
      exactly when some line is a malformed call record. */
  function Build(lines: seq<string>): (r: Result<Graph, ParseError>)
    ensures r.Ok? <==> forall i | 0 <= i < |lines| :: !IsMalformed(ExtractMethodRecord(lines[i]))
    ensures r.Ok? ==> Valid(r.value)
  {
    BuildFrom(ParseLines(lines))
  }

  predicate IsMalformed(p: LineParse) {
    p.Malformed?
  }

  /** The edges of the built graph, stated on the text of the log: `m` calls
      `c` exactly when some line is laid out as a call record from `m` to
      `c`. */
  lemma BuildEdges(lines: seq<string>, m: Method, c: Method)
    requires Build(lines).Ok?
    ensures (m in Build(lines).value.edges && c in Build(lines).value.edges[m]) <==>
            exists i, t | 0 <= i < |lines| :: IsRecordLine(lines[i], Record(m, c, t))
  {
    var ps := ParseLines(lines);
    var g := BuildFrom(ps).value;
    if m in g.edges && c in g.edges[m] {
      var i :| 0 <= i < |ps| && HasEdge(ps[i], m, c);
      var rec := ps[i].record;
      RecordLineIff(lines[i], rec);
      assert rec == Record(m, c, rec.callType);
    }
    if exists i, t | 0 <= i < |lines| :: IsRecordLine(lines[i], Record(m, c, t)) {
      var i, t :| 0 <= i < |lines| && IsRecordLine(lines[i], Record(m, c, t));
      RecordLineIff(lines[i], Record(m, c, t));
      assert HasCaller(ps[i], m) && HasEdge(ps[i], m, c);
    }
  }

  /** Lines that are not call records (`None` from the parser) change
      nothing, wherever they occur in the log. */
  lemma {:induction false} IgnoresNonRecordLines(a: seq<LineParse>, b: seq<LineParse>)
    ensures BuildFrom(a + [NotRecord] + b) == BuildFrom(a + b)
  {
    if |b| == 0 {
      assert (a + [NotRecord])[..|a|] == a;
      assert a + [NotRecord] + b == a + [NotRecord];
      assert a + b == a;
      BuildFromLast(a + [NotRecord]);
    } else {
      var binit, blast := b[..|b| - 1], b[|b| - 1];
      IgnoresNonRecordLines(a, binit);
      var s, t := a + [NotRecord] + b, a + b;
      assert s[..|s| - 1] == a + [NotRecord] + binit && s[|s| - 1] == blast;
      assert t[..|t| - 1] == a + binit && t[|t| - 1] == blast;
      BuildFromLast(s);
      BuildFromLast(t);
    }
  }
}
