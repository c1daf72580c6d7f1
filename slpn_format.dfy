/** The .slpn text of a net description, and the proof that reading that text back gives
    exactly the described net: the declared places numbered in order, only positive token
    counts in the initial marking, the transitions with their labels and fractional
    weights, and their arcs in text order tagged with the transition's index.

    The text is written with a function show for the integer lines; the proof holds for
    every show whose lines int() reads back, and str() is one (ReadRendered). */
module SlpnFormat {
  import opened Wrappers
  import opened Strings
  import opened Slpn
  import opened SlpnImporter

  /** A transition as written: silent or labelled, a weight num/den, and its places. */
  datatype TransitionText = TransitionText(silent: bool, name: string, num: int, den: int,
                                           ins: seq<int>, outs: seq<int>)

  /** A whole net as written: a header line, one token count per place, the transitions. */
  datatype NetText = NetText(header: string, tokens: seq<int>, transitions: seq<TransitionText>)

  /** A transition can be written so that it reads back: a non-empty label that does not
      end in whitespace (the line is stripped before the label is taken). */
  predicate TransitionWritable(t: TransitionText) {
    t.silent || (t.name != [] && !IsSpace(t.name[|t.name| - 1]))
  }

  predicate Writable(d: NetText) {
    !IsComment(d.header) && forall j :: 0 <= j < |d.transitions| ==> TransitionWritable(d.transitions[j])
  }

  /** s is a line that stays as it is when stripped, is no comment, holds neither '/'
      nor '.', and int() reads it as x. */
  predicate IntText(s: string, x: int) {
    s != [] && !IsSpace(s[0]) && !IsSpace(s[|s| - 1]) && Strip(s) == s && !IsComment(s)
    && '/' !in s && '.' !in s && ParseInt(s) == Some(x)
  }

  /** show writes x as a line that int() reads back. */
  predicate ShowsAt(show: int -> string, x: int) {
    IntText(show(x), x)
  }

  /** show writes every integer as a line that int() reads back. */
  ghost predicate Shows(show: int -> string) {
    forall x :: ShowsAt(show, x)
  }

  function IntLines(xs: seq<int>, show: int -> string): (r: seq<string>)
    ensures |r| == |xs|
  {
    seq(|xs|, i requires 0 <= i < |xs| => show(xs[i]))
  }

  function LabelLine(t: TransitionText): string {
    if t.silent then SILENT else "label " + t.name
  }

  function WeightLine(t: TransitionText, show: int -> string): string {
    show(t.num) + "/" + show(t.den)
  }

  function TransitionLines(t: TransitionText, show: int -> string): seq<string> {
    [LabelLine(t), WeightLine(t, show), show(|t.ins|)] + IntLines(t.ins, show)
      + [show(|t.outs|)] + IntLines(t.outs, show)
  }

  function TransitionsLines(ts: seq<TransitionText>, show: int -> string): seq<string> {
    if ts == [] then [] else TransitionLines(ts[0], show) + TransitionsLines(ts[1..], show)
  }

  /** The lines of the text of d. */
  function Render(d: NetText, show: int -> string): seq<string> {
    [d.header, show(|d.tokens|)] + IntLines(d.tokens, show)
      + [show(|d.transitions|)] + TransitionsLines(d.transitions, show)
  }

  /** The initial marking of the first k places: the positive token counts only. */
  function MarkingOf(tokens: seq<int>, k: nat): map<int, int>
    requires k <= |tokens|
  {
    map i | 0 <= i < k && tokens[i] > 0 :: tokens[i]
  }

  /** The weight is num/den, and absent for a zero denominator. */
  function TransitionOf(t: TransitionText): Transition {
    Transition(if t.silent then SILENT else t.name,
               if t.den == 0 then None else Some(t.num as real / t.den as real))
  }

  /** The arcs of one transition with index j, place to transition or transition to place. */
  function ArcsOf(places: seq<int>, j: int, incoming: bool): seq<(int, int)> {
    seq(|places|, i requires 0 <= i < |places| => if incoming then (places[i], j) else (j, places[i]))
  }

  /** The arcs of the first j transitions, in text order. */
  function ArcsIn(ts: seq<TransitionText>, j: nat): seq<(int, int)>
    requires j <= |ts|
  {
    if j == 0 then [] else ArcsIn(ts, j - 1) + ArcsOf(ts[j - 1].ins, j - 1, true)
  }

  function ArcsOut(ts: seq<TransitionText>, j: nat): seq<(int, int)>
    requires j <= |ts|
  {
    if j == 0 then [] else ArcsOut(ts, j - 1) + ArcsOf(ts[j - 1].outs, j - 1, false)
  }

  /** The net after the first k places. */
  function PlacesNet(tokens: seq<int>, k: nat): Net
    requires k <= |tokens|
  {
    Net(seq(k, i => i), MarkingOf(tokens, k), [], [], [])
  }

  /** The net after all places and the first j transitions. */
  function TransitionsNet(places: Net, ts: seq<TransitionText>, j: nat): Net
    requires j <= |ts|
  {
    places.(transitions := seq(j, i requires 0 <= i < j => TransitionOf(ts[i])),
            arcsPT := ArcsIn(ts, j), arcsTP := ArcsOut(ts, j))
  }

  /** The net d describes. */
  function NetOf(d: NetText): Net {
    TransitionsNet(PlacesNet(d.tokens, |d.tokens|), d.transitions, |d.transitions|)
  }

  /** str() writes integer lines that int() reads back. */
  lemma {:induction false} StrShows()
    ensures Shows(IntToString)
  {
    forall x ensures ShowsAt(IntToString, x) {
      var s := IntToString(x);
      var d := NatToString(if x < 0 then -x else x);
      assert forall i :: 0 <= i < |d| ==> IsDigit(d[i]);
      StripUnchanged(s);
      ParseIntOfString(x);
    }
  }

  /** A line with no comment mark reads back stripped. */
  lemma {:induction false} PlainLineRead(lines: seq<string>, pos: nat)
    requires pos < |lines| && !IsComment(lines[pos])
    ensures NextLine(lines, pos) == Ok((Strip(lines[pos]), pos + 1))
  {
  }

  /** A line holding an integer's text reads back as that integer. */
  lemma {:induction false} IntLineRead(lines: seq<string>, pos: nat, x: int)
    requires pos < |lines| && IntText(lines[pos], x)
    ensures NextInt(lines, pos) == Ok((x, pos + 1))
  {
    PlainLineRead(lines, pos);
  }

  lemma {:induction false} UnsignedNotDecimal(u: string)
    requires '/' in u && '.' !in u
    ensures UnsignedDecimal(u).None?
  {
    var k :| 0 <= k < |u| && u[k] == '/';
    assert !IsDigit(u[k]);
  }

  /** Text holding a '/' and no '.' is not a decimal number. */
  lemma {:induction false} NotDecimalWithSlash(s: string)
    requires '/' in s && '.' !in s
    ensures ParseDecimal(s).None?
  {
    var k :| 0 <= k < |s| && s[k] == '/';
    if s[0] == '-' || s[0] == '+' {
      assert s[1..][k - 1] == '/';
      UnsignedNotDecimal(s[1..]);
    } else {
      UnsignedNotDecimal(s);
    }
  }

  /** Splitting a + [c] + b on c, when neither part holds c, gives the two parts. */
  lemma {:induction false} SplitTwo(a: string, b: string, c: char)
    requires c !in a && c !in b
    ensures Split(a + [c] + b, c) == [a, b]
  {
    var s := a + [c] + b;
    assert s[|a|] == c;
    assert s[..|a|] == a;
    assert s[|a| + 1..] == b;
    assert IndexOf(s, c) == Some(|a|);
    SplitNoSeparator(b, c);
  }

  /** A fraction a/b of two integer texts reads back as num/den, and as no weight when den
      is zero. */
  lemma {:induction false} FractionRead(a: string, b: string, num: int, den: int)
    requires IntText(a, num) && IntText(b, den)
    ensures ParseNumber(a + "/" + b) == if den == 0 then None else Some(num as real / den as real)
  {
    var s := a + "/" + b;
    assert s[0] == a[0] && s[|s| - 1] == b[|b| - 1];
    assert TrimLeft(a) == a && TrimRight(b) == b;
    assert !IsSpace(s[0]) && !IsSpace(s[|s| - 1]);
    StripUnchanged(s);
    assert s[|a|] == '/';
    assert '.' !in s;
    NotDecimalWithSlash(s);
    SplitTwo(a, b, '/');
  }

  /** str(num) + "/" + str(den) reads back as num/den. */
  lemma {:induction false} ParseNumberFraction(num: int, den: int)
    ensures ParseNumber(IntToString(num) + "/" + IntToString(den))
      == if den == 0 then None else Some(num as real / den as real)
  {
    StrShows();
    assert ShowsAt(IntToString, num) && ShowsAt(IntToString, den);
    FractionRead(IntToString(num), IntToString(den), num, den);
  }

  lemma {:induction false} DecimalOfString(x: int)
    ensures ParseDecimal(IntToString(x)) == Some(x as real)
  {
    var n: nat := if x < 0 then -x else x;
    var d := NatToString(n);
    DigitsOfNat(n);
    assert UnsignedDecimal(d) == Some(n as real);
    if x < 0 {
      assert IntToString(x)[1..] == d;
    } else {
      assert IsDigit(d[0]);
    }
  }

  /** An integer weight str(x) reads back as x. */
  lemma {:induction false} ParseNumberInteger(x: int)
    ensures ParseNumber(IntToString(x)) == Some(x as real)
  {
    StrShows();
    assert ShowsAt(IntToString, x);
    DecimalOfString(x);
  }


  /** The lines from pos on read back, one by one, as the integers xs. */
  predicate IntsAt(lines: seq<string>, pos: nat, xs: seq<int>)
    decreases |xs|
  {
    xs == [] || (NextInt(lines, pos) == Ok((xs[0], pos + 1)) && IntsAt(lines, pos + 1, xs[1..]))
  }

  /** Integer lines written with show read back as their integers. */
  lemma {:induction false} IntLinesRead(lines: seq<string>, pos: nat, xs: seq<int>, show: int -> string)
    requires Shows(show)
    requires pos + |xs| <= |lines| && lines[pos..pos + |xs|] == IntLines(xs, show)
    ensures IntsAt(lines, pos, xs)
    decreases |xs|
  {
    if xs != [] {
      assert lines[pos] == lines[pos..pos + |xs|][0] == show(xs[0]);
      assert ShowsAt(show, xs[0]);
      IntLineRead(lines, pos, xs[0]);
      assert lines[pos + 1..pos + 1 + |xs[1..]|] == lines[pos..pos + |xs|][1..];
      assert IntLines(xs, show)[1..] == IntLines(xs[1..], show);
      IntLinesRead(lines, pos + 1, xs[1..], show);
    }
  }

  /** The first of the integer lines, and the rest. */
  lemma {:induction false} IntsAtCons(lines: seq<string>, pos: nat, x: int, xs: seq<int>)
    requires IntsAt(lines, pos, [x] + xs)
    ensures NextInt(lines, pos) == Ok((x, pos + 1)) && IntsAt(lines, pos + 1, xs)
  {
    assert ([x] + xs)[0] == x && ([x] + xs)[1..] == xs;
  }

  lemma {:induction false} IntsAtOne(lines: seq<string>, pos: nat, x: int)
    requires IntsAt(lines, pos, [x])
    ensures NextInt(lines, pos) == Ok((x, pos + 1))
  {
  }

  lemma {:induction false} PlacesNetZero(tokens: seq<int>)
    ensures PlacesNet(tokens, 0) == EmptyNet
  {
    assert MarkingOf(tokens, 0) == map[];
  }

  lemma {:induction false} MarkingStep(tokens: seq<int>, k: nat)
    requires k < |tokens|
    ensures MarkingOf(tokens, k + 1)
      == if tokens[k] > 0 then MarkingOf(tokens, k)[k := tokens[k]] else MarkingOf(tokens, k)
  {
    var m, m' := MarkingOf(tokens, k), MarkingOf(tokens, k + 1);
    if tokens[k] > 0 {
      assert m'.Keys == m.Keys + {k};
    } else {
      assert m'.Keys == m.Keys;
    }
  }

  lemma {:induction false} PlacesNetStep(tokens: seq<int>, k: nat)
    requires k < |tokens|
    ensures var net := PlacesNet(tokens, k);
      PlacesNet(tokens, k + 1)
        == if tokens[k] > 0 then net.AddPlace().AddToMarking(k, tokens[k]) else net.AddPlace()
  {
    assert PlacesNet(tokens, k).AddPlace().places == seq(k + 1, i => i);
    MarkingStep(tokens, k);
  }

  lemma {:induction false} PlacesReadStep(lines: seq<string>, pos: nat, tokens: seq<int>, k: nat, rest: Result<(Net, nat)>)
    requires k < |tokens| && NextInt(lines, pos) == Ok((tokens[k], pos + 1))
    requires ReadPlaces(lines, pos + 1, k + 1, |tokens|, PlacesNet(tokens, k + 1)) == rest
    ensures ReadPlaces(lines, pos, k, |tokens|, PlacesNet(tokens, k)) == rest
  {
    PlacesNetStep(tokens, k);
    PlacesStep(lines, pos, k, |tokens|, PlacesNet(tokens, k));
  }

  /** Token lines for places k, ... read back as those places and their marking, ending
      at end. */
  lemma {:induction false} PlacesRead(lines: seq<string>, pos: nat, tokens: seq<int>, k: nat, end: nat)
    requires k <= |tokens| && IntsAt(lines, pos, tokens[k..]) && end == pos + (|tokens| - k)
    ensures ReadPlaces(lines, pos, k, |tokens|, PlacesNet(tokens, k)) == Ok((PlacesNet(tokens, |tokens|), end))
    decreases |tokens| - k
  {
    if k < |tokens| {
      assert tokens[k..][0] == tokens[k] && tokens[k..][1..] == tokens[k + 1..];
      PlacesRead(lines, pos + 1, tokens, k + 1, end);
      PlacesReadStep(lines, pos, tokens, k, Ok((PlacesNet(tokens, |tokens|), end)));
    }
  }

  /** net with arcs appended to its incoming or outgoing arc list. */
  function WithArcs(net: Net, arcs: seq<(int, int)>, incoming: bool): Net {
    if incoming then net.(arcsPT := net.arcsPT + arcs) else net.(arcsTP := net.arcsTP + arcs)
  }

  /** The arc one place line adds. */
  function AddArc(net: Net, place: int, t: int, incoming: bool): Net {
    if incoming then net.AddPlaceTransitionArc(place, t) else net.AddTransitionPlaceArc(t, place)
  }

  lemma {:induction false} WithArcsStep(net: Net, xs: seq<int>, k: nat, t: int, incoming: bool)
    requires k < |xs|
    ensures WithArcs(AddArc(net, xs[k], t, incoming), ArcsOf(xs[k + 1..], t, incoming), incoming)
      == WithArcs(net, ArcsOf(xs[k..], t, incoming), incoming)
  {
    var e := if incoming then (xs[k], t) else (t, xs[k]);
    assert ArcsOf(xs[k..], t, incoming) == [e] + ArcsOf(xs[k + 1..], t, incoming);
    if incoming {
      assert net.arcsPT + [e] + ArcsOf(xs[k + 1..], t, incoming)
        == net.arcsPT + ([e] + ArcsOf(xs[k + 1..], t, incoming));
    } else {
      assert net.arcsTP + [e] + ArcsOf(xs[k + 1..], t, incoming)
        == net.arcsTP + ([e] + ArcsOf(xs[k + 1..], t, incoming));
    }
  }

  lemma {:induction false} ArcsReadStep(lines: seq<string>, pos: nat, xs: seq<int>, k: nat, t: int, incoming: bool, net: Net,
                     rest: Result<(Net, nat)>)
    requires k < |xs| && NextInt(lines, pos) == Ok((xs[k], pos + 1))
    requires ReadArcs(lines, pos + 1, k + 1, |xs|, t, incoming, AddArc(net, xs[k], t, incoming)) == rest
    ensures ReadArcs(lines, pos, k, |xs|, t, incoming, net) == rest
  {
    ArcsStep(lines, pos, k, |xs|, t, incoming, net);
  }

  /** Place lines for arcs k, ... read back as those arcs, in order, ending at end. */
  lemma {:induction false} ArcsRead(lines: seq<string>, pos: nat, xs: seq<int>, k: nat, t: int, incoming: bool,
                                    net: Net, end: nat)
    requires k <= |xs| && IntsAt(lines, pos, xs[k..]) && end == pos + (|xs| - k)
    ensures ReadArcs(lines, pos, k, |xs|, t, incoming, net)
      == Ok((WithArcs(net, ArcsOf(xs[k..], t, incoming), incoming), end))
    decreases |xs| - k
  {
    if k < |xs| {
      assert xs[k..][0] == xs[k] && xs[k..][1..] == xs[k + 1..];
      var net' := AddArc(net, xs[k], t, incoming);
      ArcsRead(lines, pos + 1, xs, k + 1, t, incoming, net', end);
      WithArcsStep(net, xs, k, t, incoming);
      ArcsReadStep(lines, pos, xs, k, t, incoming, net,
                   Ok((WithArcs(net, ArcsOf(xs[k..], t, incoming), incoming), end)));
    } else {
      assert ArcsOf(xs[k..], t, incoming) == [];
      assert net.arcsPT + [] == net.arcsPT && net.arcsTP + [] == net.arcsTP;
    }
  }

  lemma {:induction false} LabelLineRead(tt: TransitionText, weight: Option<real>, net: Net)
    requires TransitionWritable(tt)
    ensures TransitionFrom(LabelLine(tt), weight, net) == Ok(net.AddTransition(TransitionOf(tt).name, weight))
  {
    var first := LabelLine(tt);
    if !tt.silent {
      assert first[..6] == "label " && first[6..] == tt.name;
      assert first[..6] != SILENT;
    }
  }

  lemma {:induction false} WeightLineRead(tt: TransitionText, show: int -> string)
    requires Shows(show)
    ensures ParseNumber(WeightLine(tt, show)) == TransitionOf(tt).weight
  {
    assert ShowsAt(show, tt.num) && ShowsAt(show, tt.den);
    FractionRead(show(tt.num), show(tt.den), tt.num, tt.den);
  }

  lemma {:induction false} LabelLineStripped(tt: TransitionText)
    requires TransitionWritable(tt)
    ensures Strip(LabelLine(tt)) == LabelLine(tt) && !IsComment(LabelLine(tt))
  {
    var first := LabelLine(tt);
    if !tt.silent {
      assert first[|first| - 1] == tt.name[|tt.name| - 1];
    }
    StripUnchanged(first);
  }

  lemma {:induction false} SlashJoinStripped(a: string, b: string)
    requires a != [] && b != [] && !IsSpace(a[0]) && !IsSpace(b[|b| - 1]) && !IsComment(a)
    ensures Strip(a + "/" + b) == a + "/" + b && !IsComment(a + "/" + b)
  {
    var w := a + "/" + b;
    assert w[0] == a[0] && w[|w| - 1] == b[|b| - 1];
    StripUnchanged(w);
  }

  lemma {:induction false} WeightLineStripped(tt: TransitionText, show: int -> string)
    requires Shows(show)
    ensures Strip(WeightLine(tt, show)) == WeightLine(tt, show) && !IsComment(WeightLine(tt, show))
  {
    assert ShowsAt(show, tt.num) && ShowsAt(show, tt.den);
    SlashJoinStripped(show(tt.num), show(tt.den));
  }

  /** The net after one transition and its arcs. */
  function AfterTransition(net: Net, tt: TransitionText, j: nat): Net {
    WithArcs(WithArcs(net.AddTransition(TransitionOf(tt).name, TransitionOf(tt).weight),
                      ArcsOf(tt.ins, j, true), true),
             ArcsOf(tt.outs, j, false), false)
  }

  /** ReadTransition, call by call. */
  lemma {:induction false} TransitionReadSteps(lines: seq<string>, pos: nat, t: nat, net: Net, first: string, w: string, net1: Net,
                            p1: nat, p2: nat, n: int, p3: nat, net2: Net, p4: nat, m: int, p5: nat,
                            rest: Result<(Net, nat)>)
    requires NextLine(lines, pos) == Ok((first, p1))
    requires NextLine(lines, p1) == Ok((w, p2))
    requires TransitionFrom(first, ParseNumber(w), net) == Ok(net1)
    requires NextInt(lines, p2) == Ok((n, p3))
    requires ReadArcs(lines, p3, 0, n, t, true, net1) == Ok((net2, p4))
    requires NextInt(lines, p4) == Ok((m, p5))
    requires ReadArcs(lines, p5, 0, m, t, false, net2) == rest
    ensures ReadTransition(lines, pos, t, net) == rest
  {
  }

  /** A count line and the place lines after it read back as that many arcs. */
  lemma {:induction false} ArcLinesRead(lines: seq<string>, pos: nat, xs: seq<int>, t: int, incoming: bool, net: Net, end: nat)
    requires IntsAt(lines, pos, [|xs|] + xs) && end == pos + 1 + |xs|
    ensures NextInt(lines, pos) == Ok((|xs|, pos + 1))
    ensures ReadArcs(lines, pos + 1, 0, |xs|, t, incoming, net)
      == Ok((WithArcs(net, ArcsOf(xs, t, incoming), incoming), end))
  {
    IntsAtCons(lines, pos, |xs|, xs);
    assert xs[0..] == xs;
    ArcsRead(lines, pos + 1, xs, 0, t, incoming, net, end);
  }

  /** The lines of one transition read back as that transition and its arcs. */
  lemma {:induction false} TransitionRead(lines: seq<string>, pos: nat, tt: TransitionText, j: nat, net: Net, w: string,
                       p1: nat, p2: nat, q: nat, end: nat)
    requires TransitionWritable(tt)
    requires NextLine(lines, pos) == Ok((LabelLine(tt), p1))
    requires NextLine(lines, p1) == Ok((w, p2)) && ParseNumber(w) == TransitionOf(tt).weight
    requires ArcListsAt(lines, p2, tt, j, net.AddTransition(TransitionOf(tt).name, TransitionOf(tt).weight), q, end)
    ensures ReadTransition(lines, pos, j, net) == Ok((AfterTransition(net, tt, j), end))
  {
    LabelLineRead(tt, TransitionOf(tt).weight, net);
  }

  /** From p2 on, the lines read back as the counted incoming and then outgoing arcs of tt,
      added to net1: the incoming ones end at q, the outgoing ones at end. */
  predicate ArcListsAt(lines: seq<string>, p2: nat, tt: TransitionText, j: nat, net1: Net, q: nat, end: nat) {
    var net2 := WithArcs(net1, ArcsOf(tt.ins, j, true), true);
    NextInt(lines, p2) == Ok((|tt.ins|, p2 + 1))
    && ReadArcs(lines, p2 + 1, 0, |tt.ins|, j, true, net1) == Ok((net2, q))
    && NextInt(lines, q) == Ok((|tt.outs|, q + 1))
    && ReadArcs(lines, q + 1, 0, |tt.outs|, j, false, net2) == Ok((WithArcs(net2, ArcsOf(tt.outs, j, false), false), end))
  }

  lemma {:induction false} ArcListsRead(lines: seq<string>, p2: nat, tt: TransitionText, j: nat, net1: Net, q: nat, end: nat)
    requires IntsAt(lines, p2, [|tt.ins|] + tt.ins) && q == p2 + 1 + |tt.ins|
    requires IntsAt(lines, q, [|tt.outs|] + tt.outs) && end == q + 1 + |tt.outs|
    ensures ArcListsAt(lines, p2, tt, j, net1, q, end)
  {
    ArcLinesRead(lines, p2, tt.ins, j, true, net1, q);
    ArcLinesRead(lines, q, tt.outs, j, false, WithArcs(net1, ArcsOf(tt.ins, j, true), true), end);
  }

  /** The parts of a transition's lines. */
  lemma {:induction false} TransitionLinesParts(tt: TransitionText, show: int -> string)
    ensures var tl, n, m := TransitionLines(tt, show), |tt.ins|, |tt.outs|;
      |tl| == 4 + n + m && tl[0] == LabelLine(tt) && tl[1] == WeightLine(tt, show)
      && tl[2..3 + n] == IntLines([n] + tt.ins, show) && tl[3 + n..] == IntLines([m] + tt.outs, show)
  {
    var tl, n, m := TransitionLines(tt, show), |tt.ins|, |tt.outs|;
    assert tl[2..3 + n] == [show(n)] + IntLines(tt.ins, show);
    assert tl[3 + n..] == [show(m)] + IntLines(tt.outs, show);
  }

  lemma {:induction false} SubSlice<T>(s: seq<T>, pos: nat, t: seq<T>, a: nat, b: nat)
    requires pos + |t| <= |s| && s[pos..pos + |t|] == t && a <= b <= |t|
    ensures s[pos + a..pos + b] == t[a..b]
  {
    forall i | 0 <= i < b - a ensures s[pos + a..pos + b][i] == t[a..b][i] {
      assert s[pos + a + i] == s[pos..pos + |t|][a + i];
    }
  }

  lemma {:induction false} TransitionHeadRead(lines: seq<string>, pos: nat, tt: TransitionText, show: int -> string)
    requires Shows(show) && TransitionWritable(tt)
    requires pos + 2 <= |lines| && lines[pos] == LabelLine(tt) && lines[pos + 1] == WeightLine(tt, show)
    ensures NextLine(lines, pos) == Ok((LabelLine(tt), pos + 1))
    ensures NextLine(lines, pos + 1) == Ok((WeightLine(tt, show), pos + 2))
  {
    LabelLineStripped(tt);
    PlainLineRead(lines, pos);
    WeightLineStripped(tt, show);
    PlainLineRead(lines, pos + 1);
  }

  /** The count and place lines of one transition, written with show, read back as its arcs. */
  lemma {:induction false} TransitionArcsRead(lines: seq<string>, pos: nat, tt: TransitionText, show: int -> string, j: nat,
                           net1: Net, p2: nat, q: nat, end: nat)
    requires Shows(show)
    requires pos + |TransitionLines(tt, show)| <= |lines|
    requires lines[pos..pos + |TransitionLines(tt, show)|] == TransitionLines(tt, show)
    requires p2 == pos + 2 && q == p2 + 1 + |tt.ins| && end == q + 1 + |tt.outs|
    ensures ArcListsAt(lines, p2, tt, j, net1, q, end)
  {
    var tl := TransitionLines(tt, show);
    TransitionLinesParts(tt, show);
    SubSlice(lines, pos, tl, 2, 3 + |tt.ins|);
    IntLinesRead(lines, p2, [|tt.ins|] + tt.ins, show);
    SubSlice(lines, pos, tl, 3 + |tt.ins|, |tl|);
    IntLinesRead(lines, q, [|tt.outs|] + tt.outs, show);
    ArcListsRead(lines, p2, tt, j, net1, q, end);
  }

  /** The label and weight lines of one transition, written with show, read back as they are. */
  lemma {:induction false} TransitionHeadLinesRead(lines: seq<string>, pos: nat, tt: TransitionText, show: int -> string)
    requires Shows(show) && TransitionWritable(tt)
    requires pos + |TransitionLines(tt, show)| <= |lines|
    requires lines[pos..pos + |TransitionLines(tt, show)|] == TransitionLines(tt, show)
    ensures NextLine(lines, pos) == Ok((LabelLine(tt), pos + 1))
    ensures NextLine(lines, pos + 1) == Ok((WeightLine(tt, show), pos + 2))
  {
    var tl := TransitionLines(tt, show);
    TransitionLinesParts(tt, show);
    assert lines[pos] == tl[0] && lines[pos + 1] == tl[1] by {
      assert lines[pos] == lines[pos..pos + |tl|][0];
      assert lines[pos + 1] == lines[pos..pos + |tl|][1];
    }
    TransitionHeadRead(lines, pos, tt, show);
  }

  lemma {:induction false} TransitionsNetStep(places: Net, ts: seq<TransitionText>, j: nat)
    requires j < |ts|
    ensures AfterTransition(TransitionsNet(places, ts, j), ts[j], j) == TransitionsNet(places, ts, j + 1)
  {
    var net := TransitionsNet(places, ts, j);
    assert net.transitions + [TransitionOf(ts[j])] == seq(j + 1, i requires 0 <= i < j + 1 => TransitionOf(ts[i]));
  }

  lemma {:induction false} TransitionsLinesSplit(lines: seq<string>, pos: nat, ts: seq<TransitionText>, j: nat, show: int -> string)
    requires j < |ts| && pos <= |lines| && lines[pos..] == TransitionsLines(ts[j..], show)
    ensures var tl := TransitionLines(ts[j], show);
      pos + |tl| <= |lines| && lines[pos..pos + |tl|] == tl
      && lines[pos + |tl|..] == TransitionsLines(ts[j + 1..], show)
  {
    var tl := TransitionLines(ts[j], show);
    assert ts[j..][0] == ts[j] && ts[j..][1..] == ts[j + 1..];
    assert lines[pos..] == tl + TransitionsLines(ts[j + 1..], show);
    assert lines[pos..pos + |tl|] == lines[pos..][..|tl|];
    assert lines[pos + |tl|..] == lines[pos..][|tl|..];
  }

  /** The lines of one transition, written with show, read back as that transition and its
      arcs. */
  lemma {:induction false} TransitionTextRead(lines: seq<string>, pos: nat, tt: TransitionText, j: nat, net: Net,
                           show: int -> string, next: nat)
    requires Shows(show) && TransitionWritable(tt)
    requires next == pos + |TransitionLines(tt, show)| <= |lines|
    requires lines[pos..next] == TransitionLines(tt, show)
    ensures ReadTransition(lines, pos, j, net) == Ok((AfterTransition(net, tt, j), next))
  {
    var net1 := net.AddTransition(TransitionOf(tt).name, TransitionOf(tt).weight);
    var q := pos + 2 + 1 + |tt.ins|;
    TransitionLinesParts(tt, show);
    TransitionArcsRead(lines, pos, tt, show, j, net1, pos + 2, q, next);
    TransitionHeadLinesRead(lines, pos, tt, show);
    WeightLineRead(tt, show);
    TransitionRead(lines, pos, tt, j, net, WeightLine(tt, show), pos + 1, pos + 2, q, next);
  }

  lemma {:induction false} TransitionsReadStep(lines: seq<string>, pos: nat, next: nat, places: Net, ts: seq<TransitionText>,
                            j: nat, show: int -> string, rest: Result<(Net, nat)>)
    requires Shows(show) && j < |ts| && TransitionWritable(ts[j])
    requires next == pos + |TransitionLines(ts[j], show)| <= |lines|
    requires lines[pos..next] == TransitionLines(ts[j], show)
    requires ReadTransitions(lines, next, j + 1, |ts|, TransitionsNet(places, ts, j + 1)) == rest
    ensures ReadTransitions(lines, pos, j, |ts|, TransitionsNet(places, ts, j)) == rest
  {
    var net := TransitionsNet(places, ts, j);
    TransitionTextRead(lines, pos, ts[j], j, net, show, next);
    TransitionsNetStep(places, ts, j);
    TransitionsStep(lines, pos, j, |ts|, net);
  }

  /** The lines of transitions j, ... read back as those transitions and their arcs. */
  lemma {:induction false} TransitionsRead(lines: seq<string>, pos: nat, places: Net, ts: seq<TransitionText>,
                                           j: nat, show: int -> string)
    requires Shows(show) && j <= |ts| && forall i :: 0 <= i < |ts| ==> TransitionWritable(ts[i])
    requires pos <= |lines| && lines[pos..] == TransitionsLines(ts[j..], show)
    ensures ReadTransitions(lines, pos, j, |ts|, TransitionsNet(places, ts, j))
      == Ok((TransitionsNet(places, ts, |ts|), |lines|))
    decreases |ts| - j
  {
    if j < |ts| {
      var next := pos + |TransitionLines(ts[j], show)|;
      TransitionsLinesSplit(lines, pos, ts, j, show);
      TransitionsRead(lines, next, places, ts, j + 1, show);
      TransitionsReadStep(lines, pos, next, places, ts, j, show, Ok((TransitionsNet(places, ts, |ts|), |lines|)));
    } else {
      assert lines[pos..] == [];
    }
  }

  lemma {:induction false} RenderedPrefix(d: NetText, show: int -> string)
    ensures var lines, n, m := Render(d, show), |d.tokens|, |d.transitions|;
      lines[0] == d.header && 3 + n <= |lines| && lines[1..2 + n] == IntLines([n] + d.tokens, show)
      && lines[2 + n..3 + n] == IntLines([m], show) && lines[3 + n..] == TransitionsLines(d.transitions, show)
  {
    var lines, n, m := Render(d, show), |d.tokens|, |d.transitions|;
    assert lines[1..2 + n] == [show(n)] + IntLines(d.tokens, show);
    assert lines[2 + n..3 + n] == [show(m)];
  }

  /** ReadFrom, call by call. */
  lemma {:induction false} ReadFromSteps(lines: seq<string>, header: string, n: int, places: Net, p: nat, m: int,
                      rest: Result<(Net, nat)>)
    requires NextLine(lines, 0) == Ok((header, 1))
    requires NextInt(lines, 1) == Ok((n, 2))
    requires ReadPlaces(lines, 2, 0, n, EmptyNet) == Ok((places, p))
    requires NextInt(lines, p) == Ok((m, p + 1))
    requires ReadTransitions(lines, p + 1, 0, m, places) == rest
    ensures ReadFrom(lines, 0) == rest
  {
  }

  /** ReadFrom on lines whose header, place and count lines read back as those of d and
      whose transition lines read back as the transitions of d. */
  lemma {:induction false} ReadFromParts(lines: seq<string>, d: NetText, h: string)
    requires NextLine(lines, 0) == Ok((h, 1))
    requires IntsAt(lines, 1, [|d.tokens|] + d.tokens)
    requires IntsAt(lines, 2 + |d.tokens|, [|d.transitions|])
    requires ReadTransitions(lines, 2 + |d.tokens| + 1, 0, |d.transitions|, PlacesNet(d.tokens, |d.tokens|))
      == Ok((NetOf(d), |lines|))
    ensures ReadFrom(lines, 0) == Ok((NetOf(d), |lines|))
  {
    IntsAtCons(lines, 1, |d.tokens|, d.tokens);
    IntsAtOne(lines, 2 + |d.tokens|, |d.transitions|);
    PlacesNetZero(d.tokens);
    assert d.tokens[0..] == d.tokens;
    PlacesRead(lines, 2, d.tokens, 0, 2 + |d.tokens|);
    ReadFromSteps(lines, h, |d.tokens|, PlacesNet(d.tokens, |d.tokens|), 2 + |d.tokens|, |d.transitions|,
                  Ok((NetOf(d), |lines|)));
  }

  /** Reading a text written with show gives exactly the described net and consumes every
      line. */
  lemma {:induction false} ReadRenderedWith(d: NetText, show: int -> string)
    requires Shows(show) && Writable(d)
    ensures ReadFrom(Render(d, show), 0) == Ok((NetOf(d), |Render(d, show)|))
  {
    var lines := Render(d, show);
    RenderedPrefix(d, show);
    PlainLineRead(lines, 0);
    IntLinesRead(lines, 1, [|d.tokens|] + d.tokens, show);
    IntLinesRead(lines, 2 + |d.tokens|, [|d.transitions|], show);
    var places := PlacesNet(d.tokens, |d.tokens|);
    assert TransitionsNet(places, d.transitions, 0) == places;
    assert d.transitions[0..] == d.transitions;
    TransitionsRead(lines, 2 + |d.tokens| + 1, places, d.transitions, 0, show);
    ReadFromParts(lines, d, Strip(d.header));
  }

  /** A net written with str() integers reads back as exactly the net described. */
  lemma {:induction false} ReadRendered(d: NetText)
    requires Writable(d)
    ensures ReadFrom(Render(d, IntToString), 0) == Ok((NetOf(d), |Render(d, IntToString)|))
  {
    StrShows();
    ReadRenderedWith(d, IntToString);
  }
}
