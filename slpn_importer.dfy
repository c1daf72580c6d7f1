/** Reading a stochastic labelled Petri net from the lines of an .slpn text: a header line,
    the place count and one token count per place, then the transition count and, per
    transition, its label line, its weight, and its counted incoming and outgoing places.
    Lines that start with '#' are comments wherever a line is expected. */
module SlpnImporter {
  import opened Wrappers
  import opened Strings
  import opened Slpn

  const EOF_ERROR := "EOFError: Unexpected end of file"
  const VALUE_ERROR := "ValueError: invalid literal for int()"
  const INVALID_TRANSITION := "RuntimeError: Invalid transition"

  /** str.startswith("#"). */
  predicate IsComment(line: string) {
    |line| > 0 && line[0] == '#'
  }

  /** The index of the first line at or after pos that is not a comment; |lines| or more
      when there is none. */
  function NextLineIndex(lines: seq<string>, pos: nat): nat
    decreases |lines| - pos
  {
    if pos >= |lines| then pos
    else if IsComment(lines[pos]) then NextLineIndex(lines, pos + 1)
    else pos
  }

  /** NextLineIndex finds the first line from pos on that is no comment: every line it
      passes over is a comment. */
  lemma {:induction false} NextLineIndexFirst(lines: seq<string>, pos: nat)
    ensures var r := NextLineIndex(lines, pos);
      && pos <= r
      && (r < |lines| ==> !IsComment(lines[r]))
      && (forall k :: pos <= k < r && k < |lines| ==> IsComment(lines[k]))
    decreases |lines| - pos
  {
    if pos < |lines| && IsComment(lines[pos]) {
      NextLineIndexFirst(lines, pos + 1);
    }
  }

  /** The next line that is not a comment, stripped, and the position after it;
      the end of the text is an EOFError. */
  function NextLine(lines: seq<string>, pos: nat): Result<(string, nat)> {
    var i := NextLineIndex(lines, pos);
    if i >= |lines| then Err(EOF_ERROR) else Ok((Strip(lines[i]), i + 1))
  }

  /** int() applied to the next line. */
  function NextInt(lines: seq<string>, pos: nat): Result<(int, nat)> {
    var l :- NextLine(lines, pos);
    var n := ParseInt(l.0);
    if n.None? then Err(VALUE_ERROR) else Ok((n.value, l.1))
  }

  /** A weight: a decimal number, or a fraction a/b of two integers; None when the text is
      neither or the denominator is zero. */
  function ParseNumber(s: string): Option<real> {
    var t := Strip(s);
    var f := ParseDecimal(t);
    if f.Some? then f
    else if '/' in t then
      var parts := Split(t, '/');
      if |parts| == 2 then
        var a := ParseInt(parts[0]);
        var b := ParseInt(parts[1]);
        if a.Some? && b.Some? && b.value != 0 then Some(a.value as real / b.value as real)
        else None
      else None
    else None
  }

  /** Places place, ..., count-1: each adds a place and, with a positive token count, marks it. */
  function ReadPlaces(lines: seq<string>, pos: nat, place: nat, count: int, net: Net): Result<(Net, nat)>
    decreases count - place
  {
    if place >= count then Ok((net, pos))
    else
      var withPlace := net.AddPlace();
      var tok :- NextInt(lines, pos);
      var marked := if tok.0 > 0 then withPlace.AddToMarking(place, tok.0) else withPlace;
      ReadPlaces(lines, tok.1, place + 1, count, marked)
  }

  /** The remaining count-k arcs of one transition, incoming (place to transition) or outgoing. */
  function ReadArcs(lines: seq<string>, pos: nat, k: nat, count: int, transition: int, incoming: bool, net: Net)
    : Result<(Net, nat)>
    decreases count - k
  {
    if k >= count then Ok((net, pos))
    else
      var p :- NextInt(lines, pos);
      var net' := if incoming then net.AddPlaceTransitionArc(p.0, transition)
                  else net.AddTransitionPlaceArc(transition, p.0);
      ReadArcs(lines, p.1, k + 1, count, transition, incoming, net')
  }

  /** One step of ReadPlaces. */
  lemma {:induction false} PlacesStep(lines: seq<string>, pos: nat, place: nat, count: int, net: Net)
    requires place < count
    ensures NextInt(lines, pos).Err? ==>
      ReadPlaces(lines, pos, place, count, net) == Err(NextInt(lines, pos).msg)
    ensures NextInt(lines, pos).Ok? ==>
      var tok := NextInt(lines, pos).value;
      ReadPlaces(lines, pos, place, count, net)
        == ReadPlaces(lines, tok.1, place + 1, count,
                      if tok.0 > 0 then net.AddPlace().AddToMarking(place, tok.0) else net.AddPlace())
  {
  }

  /** One step of ReadTransitions. */
  lemma {:induction false} TransitionsStep(lines: seq<string>, pos: nat, t: nat, count: int, net: Net)
    requires t < count
    ensures ReadTransition(lines, pos, t, net).Err? ==>
      ReadTransitions(lines, pos, t, count, net) == Err(ReadTransition(lines, pos, t, net).msg)
    ensures ReadTransition(lines, pos, t, net).Ok? ==>
      var r := ReadTransition(lines, pos, t, net).value;
      ReadTransitions(lines, pos, t, count, net) == ReadTransitions(lines, r.1, t + 1, count, r.0)
  {
  }

  /** One step of ReadArcs. */
  lemma {:induction false} ArcsStep(lines: seq<string>, pos: nat, k: nat, count: int, transition: int, incoming: bool, net: Net)
    requires k < count
    ensures NextInt(lines, pos).Err? ==>
      ReadArcs(lines, pos, k, count, transition, incoming, net) == Err(NextInt(lines, pos).msg)
    ensures NextInt(lines, pos).Ok? ==>
      var p := NextInt(lines, pos).value;
      ReadArcs(lines, pos, k, count, transition, incoming, net)
        == ReadArcs(lines, p.1, k + 1, count, transition, incoming,
                    if incoming then net.AddPlaceTransitionArc(p.0, transition)
                    else net.AddTransitionPlaceArc(transition, p.0))
  {
  }

  /** The transition a label line and a weight describe. */
  function TransitionFrom(line: string, weight: Option<real>, net: Net): Result<Net> {
    if StartsWith(line, SILENT) then Ok(net.AddTransition(SILENT, weight))
    else if StartsWith(line, "label ") then Ok(net.AddTransition(line[6..], weight))
    else Err(INVALID_TRANSITION)
  }

  /** Transitions t, ..., count-1. */
  function ReadTransitions(lines: seq<string>, pos: nat, t: nat, count: int, net: Net): Result<(Net, nat)>
    decreases count - t
  {
    if t >= count then Ok((net, pos))
    else
      var r :- ReadTransition(lines, pos, t, net);
      ReadTransitions(lines, r.1, t + 1, count, r.0)
  }

  /** Transition number t: label line, weight line, incoming arcs, outgoing arcs. */
  function ReadTransition(lines: seq<string>, pos: nat, t: nat, net: Net): Result<(Net, nat)> {
    var line :- NextLine(lines, pos);
    var w :- NextLine(lines, line.1);
    var net1 :- TransitionFrom(line.0, ParseNumber(w.0), net);
    var ni :- NextInt(lines, w.1);
    var ins :- ReadArcs(lines, ni.1, 0, ni.0, t, true, net1);
    var no :- NextInt(lines, ins.1);
    ReadArcs(lines, no.1, 0, no.0, t, false, ins.0)
  }

  /** The whole reading from position pos: the net and the position after it. */
  function ReadFrom(lines: seq<string>, pos: nat): Result<(Net, nat)> {
    var header :- NextLine(lines, pos);
    var np :- NextInt(lines, header.1);
    var places :- ReadPlaces(lines, np.1, 0, np.0, EmptyNet);
    var nt :- NextInt(lines, places.1);
    ReadTransitions(lines, nt.1, 0, nt.0, places.0)
  }

  /** A text stream, read one line at a time. */
  class LineReader {
    const lines: seq<string>
    var pos: nat

    constructor (text: seq<string>)
      ensures lines == text && pos == 0
    {
      lines := text;
      pos := 0;
    }

    /** The next raw line, or None at the end of the text. */
    method ReadLine() returns (line: Option<string>)
      modifies this
      ensures old(pos) < |lines| ==> line == Some(lines[old(pos)]) && pos == old(pos) + 1
      ensures old(pos) >= |lines| ==> line.None? && pos == old(pos)
    {
      if pos < |lines| {
        line := Some(lines[pos]);
        pos := pos + 1;
      } else {
        line := None;
      }
    }
  }

  method GetNextLine(reader: LineReader) returns (r: Result<string>)
    modifies reader
    ensures var spec := NextLine(reader.lines, old(reader.pos));
      (r.Ok? <==> spec.Ok?) && (r.Err? ==> r.msg == spec.msg)
      && (r.Ok? ==> r.value == spec.value.0 && reader.pos == spec.value.1)
  {
    ghost var p0 := reader.pos;
    var line := reader.ReadLine();
    ghost var cur: nat := if line.Some? then reader.pos - 1 else reader.pos;
    while line.Some? && IsComment(line.value)
      invariant line.Some? ==>
        0 < reader.pos <= |reader.lines| && line.value == reader.lines[reader.pos - 1] && cur == reader.pos - 1
      invariant line.None? ==> reader.pos >= |reader.lines| && cur == reader.pos
      invariant NextLineIndex(reader.lines, p0) == NextLineIndex(reader.lines, cur)
      decreases |reader.lines| - reader.pos, if line.Some? then 1 else 0
    {
      assert NextLineIndex(reader.lines, cur) == NextLineIndex(reader.lines, cur + 1);
      line := reader.ReadLine();
      cur := if line.Some? then reader.pos - 1 else reader.pos;
    }
    if line.None? {
      assert NextLineIndex(reader.lines, cur) >= |reader.lines|;
      return Err(EOF_ERROR);
    }
    assert NextLineIndex(reader.lines, cur) == cur;
    r := Ok(Strip(line.value));
  }

  method ReadInt(reader: LineReader) returns (r: Result<int>)
    modifies reader
    ensures var spec := NextInt(reader.lines, old(reader.pos));
      (r.Ok? <==> spec.Ok?) && (r.Err? ==> r.msg == spec.msg)
      && (r.Ok? ==> r.value == spec.value.0 && reader.pos == spec.value.1)
  {
    var line := GetNextLine(reader);
    if line.Err? {
      return Err(line.msg);
    }
    var n := ParseInt(line.value);
    if n.None? {
      return Err(VALUE_ERROR);
    }
    r := Ok(n.value);
  }

  /** Reads a net from the reader's remaining lines; the result is exactly what ReadFrom
      describes, and every error is the one the first failing line raises. */
  method Read(reader: LineReader) returns (r: Result<StochasticLabelledPetriNet>)
    modifies reader
    ensures var spec := ReadFrom(reader.lines, old(reader.pos));
      (r.Ok? <==> spec.Ok?) && (r.Err? ==> r.msg == spec.msg)
      && (r.Ok? ==> fresh(r.value) && r.value.Value() == spec.value.0 && reader.pos == spec.value.1)
  {
    ghost var L := reader.lines;
    var result := new StochasticLabelledPetriNet();

    // the header line
    var header := GetNextLine(reader);
    if header.Err? {
      return Err(header.msg);
    }

    // places
    var numberOfPlaces := ReadInt(reader);
    if numberOfPlaces.Err? {
      return Err(numberOfPlaces.msg);
    }
    var places := ReadPlacesInto(reader, result, numberOfPlaces.value);
    if places.Err? {
      return Err(places.msg);
    }

    // transitions
    var numberOfTransitions := ReadInt(reader);
    if numberOfTransitions.Err? {
      return Err(numberOfTransitions.msg);
    }
    var transitions := ReadTransitionsInto(reader, result, numberOfTransitions.value);
    if transitions.Err? {
      return Err(transitions.msg);
    }
    return Ok(result);
  }

  /** count places, each with its token line; a positive count enters the initial marking. */
  method ReadPlacesInto(reader: LineReader, result: StochasticLabelledPetriNet, count: int) returns (r: Result<()>)
    modifies reader, result
    ensures var spec := ReadPlaces(reader.lines, old(reader.pos), 0, count, old(result.Value()));
      (r.Ok? <==> spec.Ok?) && (r.Err? ==> r.msg == spec.msg)
      && (r.Ok? ==> result.Value() == spec.value.0 && reader.pos == spec.value.1)
  {
    ghost var L := reader.lines;
    ghost var start := reader.pos;
    ghost var net0 := result.Value();
    var place: nat := 0;
    while place < count
      invariant ReadPlaces(L, start, 0, count, net0) == ReadPlaces(L, reader.pos, place, count, result.Value())
      decreases count - place
    {
      PlacesStep(L, reader.pos, place, count, result.Value());
      result.AddPlace();
      var inInitialMarking := ReadInt(reader);
      if inInitialMarking.Err? {
        return Err(inInitialMarking.msg);
      }
      if inInitialMarking.value > 0 {
        result.AddPlaceToInitialMarking(place, inInitialMarking.value);
      }
      place := place + 1;
    }
    return Ok(());
  }

  /** count transitions, numbered from 0. */
  method ReadTransitionsInto(reader: LineReader, result: StochasticLabelledPetriNet, count: int)
      returns (r: Result<()>)
    modifies reader, result
    ensures var spec := ReadTransitions(reader.lines, old(reader.pos), 0, count, old(result.Value()));
      (r.Ok? <==> spec.Ok?) && (r.Err? ==> r.msg == spec.msg)
      && (r.Ok? ==> result.Value() == spec.value.0 && reader.pos == spec.value.1)
  {
    ghost var L := reader.lines;
    ghost var start := reader.pos;
    ghost var net0 := result.Value();
    var transition: nat := 0;
    while transition < count
      invariant ReadTransitions(L, start, 0, count, net0)
        == ReadTransitions(L, reader.pos, transition, count, result.Value())
      decreases count - transition
    {
      TransitionsStep(L, reader.pos, transition, count, result.Value());
      var step := ReadTransitionInto(reader, result, transition);
      if step.Err? {
        return Err(step.msg);
      }
      transition := transition + 1;
    }
    return Ok(());
  }

  /** One transition: its label line, weight, and incoming and outgoing arcs. */
  method ReadTransitionInto(reader: LineReader, result: StochasticLabelledPetriNet, transition: nat)
      returns (r: Result<()>)
    modifies reader, result
    ensures var spec := ReadTransition(reader.lines, old(reader.pos), transition, old(result.Value()));
      (r.Ok? <==> spec.Ok?) && (r.Err? ==> r.msg == spec.msg)
      && (r.Ok? ==> result.Value() == spec.value.0 && reader.pos == spec.value.1)
  {
    ghost var L := reader.lines;
    var line := GetNextLine(reader);
    if line.Err? {
      return Err(line.msg);
    }
    var weightStr := GetNextLine(reader);
    if weightStr.Err? {
      return Err(weightStr.msg);
    }
    var weight := ParseNumber(weightStr.value);
    if StartsWith(line.value, SILENT) {
      result.AddSilentTransition(weight);
    } else if StartsWith(line.value, "label ") {
      var name := line.value[6..];
      result.AddTransition(name, weight);
    } else {
      return Err(INVALID_TRANSITION);
    }

    // incoming places
    var numIncoming := ReadInt(reader);
    if numIncoming.Err? {
      return Err(numIncoming.msg);
    }
    var ins := ReadArcsInto(reader, result, numIncoming.value, transition, true);
    if ins.Err? {
      return Err(ins.msg);
    }

    // outgoing places
    var numOutgoing := ReadInt(reader);
    if numOutgoing.Err? {
      return Err(numOutgoing.msg);
    }
    var outs := ReadArcsInto(reader, result, numOutgoing.value, transition, false);
    if outs.Err? {
      return Err(outs.msg);
    }
    return Ok(());
  }

  /** count place lines, each appended as an arc of the given transition: incoming
      (place to transition) or outgoing (transition to place). */
  method ReadArcsInto(reader: LineReader, result: StochasticLabelledPetriNet, count: int, transition: nat,
                      incoming: bool) returns (r: Result<()>)
    modifies reader, result
    ensures var spec := ReadArcs(reader.lines, old(reader.pos), 0, count, transition, incoming, old(result.Value()));
      (r.Ok? <==> spec.Ok?) && (r.Err? ==> r.msg == spec.msg)
      && (r.Ok? ==> result.Value() == spec.value.0 && reader.pos == spec.value.1)
  {
    ghost var L := reader.lines;
    ghost var start := reader.pos;
    ghost var net0 := result.Value();
    var k: nat := 0;
    while k < count
      invariant ReadArcs(L, start, 0, count, transition, incoming, net0)
        == ReadArcs(L, reader.pos, k, count, transition, incoming, result.Value())
      decreases count - k
    {
      ArcsStep(L, reader.pos, k, count, transition, incoming, result.Value());
      var place := ReadInt(reader);
      if place.Err? {
        return Err(place.msg);
      }
      if incoming {
        result.AddPlaceTransitionArc(place.value, transition);
      } else {
        result.AddTransitionPlaceArc(transition, place.value);
      }
      k := k + 1;
    }
    return Ok(());
  }
}
