/** The airport application: three processes that pass one token around through named
    semaphores (test/scannersmain.c, test/passengers.c, test/scanners.c). */
module Airport {
  import opened Basics
  import opened Codec
  import opened Greedy

  // ----- bags and lines

  predicate IsDigit(c: char) {
    '0' <= c <= '9'
  }

  /** The number the digits of s spell, other characters being skipped. */
  function Decimal(s: string): (n: nat) {
    if s == "" then 0
    else
      var c, front := s[|s| - 1], Decimal(s[..|s| - 1]);
      if IsDigit(c) then front * 10 + (c as int - '0' as int) else front
  }

  /** A number in decimal digits. */
  ghost function Numeral(n: nat): (s: string)
    ensures s != ""
  {
    (if n < 10 then "" else Numeral(n / 10)) + [('0' as int + n % 10) as char]
  }

  /** Digits are read as the number they spell, zeros included, */
  lemma {:induction false} DecimalOfNumeral(n: nat)
    ensures Decimal(Numeral(n)) == n
  {
    var front := if n < 10 then "" else Numeral(n / 10);
    if n >= 10 {
      DecimalOfNumeral(n / 10);
    }
    OneDigitMore(front, n % 10);
  }

  lemma OneDigitMore(front: string, d: nat)
    requires d < 10
    ensures Decimal(front + [('0' as int + d) as char]) == 10 * Decimal(front) + d
  {
    assert (front + [('0' as int + d) as char])[..|front|] == front;
  }

  /** and whatever is not a digit is skipped wherever it is. */
  lemma {:induction false} OthersSkipped(a: string, c: char, b: string)
    requires c < '0' || '9' < c
    ensures Decimal(a + [c] + b) == Decimal(a + b)
    decreases |b|
  {
    if b == "" {
      assert (a + [c] + b)[..|a|] == a == a + b;
    } else {
      var m := |b| - 1;
      OthersSkipped(a, c, b[..m]);
      assert (a + [c] + b)[..|a| + 1 + m] == a + [c] + b[..m];
      assert (a + b)[..|a| + m] == a + b[..m];
    }
  }

  /** That number as the program's int holds it. */
  function Digits(s: string): int32 {
    Wrap(Decimal(s))
  }

  /** The words of a line: the stretches between spaces, empty ones included. */
  function Words(line: string): (ws: seq<string>)
    ensures ws != []
  {
    if line == "" then [""]
    else
      var c, front := line[|line| - 1], Words(line[..|line| - 1]);
      if c == ' ' then front + [""] else front[..|front| - 1] + [front[|front| - 1] + [c]]
  }

  function Heavier(ws: seq<int>, w: int): seq<int> {
    if w == 0 then ws else ws + [w]
  }

  /** The nonzero weights of a list of words, in order, as the program reads them. */
  function Weights(words: seq<string>): seq<int> {
    if words == [] then [] else Heavier(Weights(words[..|words| - 1]), Digits(words[|words| - 1]))
  }

  function BagWeights(line: string): seq<int> {
    Weights(Words(line))
  }

  /** The weights as they are written. */
  function WrittenWeights(words: seq<string>): seq<int> {
    if words == [] then [] else Heavier(WrittenWeights(words[..|words| - 1]), Decimal(words[|words| - 1]))
  }

  ghost predicate AllBelow(ws: seq<int>, limit: int) {
    forall i :: 0 <= i < |ws| ==> ws[i] < limit
  }

  /** The program reads every weight as written exactly when each is an int. */
  lemma {:induction false} WeightsAsWritten(words: seq<string>)
    ensures NonNegative(WrittenWeights(words)) && AllBelow(Weights(words), 0x8000_0000)
    ensures Weights(words) == WrittenWeights(words) <==> AllBelow(WrittenWeights(words), 0x8000_0000)
  {
    if words != [] {
      var n := |words| - 1;
      var front, w := WrittenWeights(words[..n]), Decimal(words[n]);
      WeightsAsWritten(words[..n]);
      WrapExact(w);
      if AllBelow(WrittenWeights(words), 0x8000_0000) {
        assert w != 0 ==> (front + [w])[|front|] == w;
        assert forall i :: 0 <= i < |front| ==> front[i] == WrittenWeights(words)[i];
      }
    }
  }

  ghost function Written(line: string): seq<int> {
    WrittenWeights(Words(line))
  }

  /** Every weight of the line is an int, and so is every total. */
  ghost predicate Fits(line: string) {
    AllBelow(Written(line), 0x8000_0000) && Fit(GreedyLoads(Written(line)))
  }

  /** Exactly then the program's weights and totals are the true ones. Its choices are greedy's then, and, if every
      weight is an int, exactly as long as no total overflows before the last bag. */
  lemma ChoicesAsWritten(line: string)
    ensures Fits(line) <==> BagWeights(line) == Written(line) && IntLoads(Written(line)) == GreedyLoads(Written(line))
    ensures Fits(line) ==> IntIds(BagWeights(line)) == GreedyIds(Written(line))
    ensures AllBelow(Written(line), 0x8000_0000) ==>
      (IntIds(BagWeights(line)) == GreedyIds(Written(line)) <==> FitsBeforeLast(Written(line)))
  {
    WeightsAsWritten(Words(line));
    IntsAgree(Written(line));
    if AllBelow(Written(line), 0x8000_0000) {
      IdsAgree(Written(line));
    }
  }

  lemma {:induction false} HeaviestBounds(ws: seq<int>)
    ensures AllBelow(ws, Heaviest(ws) + 1)
  {
    if ws != [] {
      HeaviestBounds(ws[..|ws| - 1]);
    }
  }

  /** A line whose weights add up to an int is such a line. */
  lemma SumFits(line: string)
    requires Sum(Written(line)) < 0x8000_0000
    ensures Fits(line)
  {
    WeightsAsWritten(Words(line));
    LoadsFit(Written(line));
    HeaviestBounds(Written(line));
    GreedyCovers(Written(line));
  }

  lemma {:induction false} OneWord(s: string)
    requires ' ' !in s
    ensures Words(s) == [s]
  {
    if s != "" {
      var front, c := s[..|s| - 1], s[|s| - 1];
      OneWord(front);
      assert c in s && s == front + [c];
      assert [front][..0] == [];
    }
  }

  /** A space ends one word and begins the next, wherever it is. */
  lemma {:induction false} SplitAtSpace(a: string, b: string)
    ensures Words(a + " " + b) == Words(a) + Words(b)
    decreases |b|
  {
    if b == "" {
      assert a + " " + b == a + [' '];
      OneMoreCharacter(a, ' ');
    } else {
      var front, c := b[..|b| - 1], b[|b| - 1];
      SplitAtSpace(a, front);
      assert b == front + [c] && a + " " + b == a + " " + front + [c];
      OneMoreCharacter(a + " " + front, c);
      OneMoreCharacter(front, c);
      Appended(Words(a), Words(front), c);
    }
  }

  /** The words after one more character. */
  ghost function Longer(ws: seq<string>, c: char): seq<string>
    requires ws != []
  {
    if c == ' ' then ws + [""] else ws[..|ws| - 1] + [ws[|ws| - 1] + [c]]
  }

  lemma OneMoreCharacter(line: string, c: char)
    ensures Words(line + [c]) == Longer(Words(line), c)
  {
    assert (line + [c])[..|line|] == line;
  }

  lemma Appended(xs: seq<string>, ys: seq<string>, c: char)
    requires ys != []
    ensures Longer(xs + ys, c) == xs + Longer(ys, c)
  {
    assert (xs + ys)[..|xs + ys| - 1] == xs + ys[..|ys| - 1];
  }

  lemma WeightOfOneWord(s: string)
    requires ' ' !in s
    ensures Written(s) == Heavier([], Decimal(s)) && BagWeights(s) == Heavier([], Digits(s))
  {
    OneWord(s);
    assert [s][..0] == [];
  }

  lemma MoreDigits(s: string, c: char) returns (r: string)
    requires IsDigit(c) && ' ' !in s
    ensures r == s + [c] && ' ' !in r && Decimal(r) == Decimal(s) * 10 + (c as int - '0' as int)
  {
    r := s + [c];
    assert r[..|s|] == s;
  }

  /** It does matter: there is a bag, of 2 to the 32, that is read as nothing and gets no scanner. */
  lemma LostBag() returns (line: string)
    ensures Written(line) == [0x1_0000_0000] && BagWeights(line) == []
  {
    line := MoreDigits("", '4');
    line := MoreDigits(line, '2');
    line := MoreDigits(line, '9');
    line := MoreDigits(line, '4');
    line := MoreDigits(line, '9');
    line := MoreDigits(line, '6');
    line := MoreDigits(line, '7');
    line := MoreDigits(line, '2');
    line := MoreDigits(line, '9');
    line := MoreDigits(line, '6');
    WeightOfOneWord(line);
  }

  /** What scanners.c computes from a hand-off: it reads up to a newline or the end. */
  method ParseHandOff(lug: string) returns (weight: int32, readEndline: bool)
    ensures weight == Digits(BeforeNewline(lug)) && readEndline == ('\n' in lug)
  {
    weight, readEndline := 0, false;
    for i := 0 to |lug|
      invariant '\n' !in lug[..i] && weight == Digits(lug[..i])
    {
      var tempbuffer := lug[i];
      assert lug[..i + 1][..i] == lug[..i];
      if IsDigit(tempbuffer) {
        WrapStep(Decimal(lug[..i]), tempbuffer as int - '0' as int);
        weight := Wrap(weight * 10 + (tempbuffer as int - '0' as int));
      } else if tempbuffer == '\n' {
        readEndline := true;
        BeforeNewlineIs(lug, i);
        return;
      }
    }
    BeforeNewlineIs(lug, |lug|);
  }

  function BeforeNewline(s: string): string {
    if s == "" || s[0] == '\n' then "" else [s[0]] + BeforeNewline(s[1..])
  }

  lemma {:induction false} BeforeNewlineIs(s: string, i: nat)
    requires i <= |s| && '\n' !in s[..i] && (i < |s| ==> s[i] == '\n')
    ensures BeforeNewline(s) == s[..i]
  {
    if i > 0 {
      assert s[0] == s[..i][0];
      assert s[1..][..i - 1] == s[..i][1..];
      BeforeNewlineIs(s[1..], i - 1);
    }
  }

  // ----- the three processes

  datatype MainPc = Serving | AwaitLine | Collecting | Finished
  datatype PassengersPc = Starting | AwaitTurn | Splitting | AwaitScan
  datatype ScannersPc = AwaitCounter | AwaitBag | Scanning
  datatype Proc = Main | Passengers | Scanners

  /** Program counters; the semaphores "main", "passengers", "scanners" and "maincounter"; the files
      passengers.txt, lugweight.txt, scannerid.txt and output.txt; the processes' own variables; and, as
      history, the nonzero weights scanned so far and whether the end of the line has been scanned. */
  datatype State = State(
    main: MainPc, pass: PassengersPc, scan: ScannersPc,
    mainSem: nat, passSem: nat, scanSem: nat, counter: nat,
    round: nat, line: string, lug: string, ids: seq<int>, output: seq<seq<int>>,
    pos: nat, loads: Loads, done: seq<int>, lineDone: bool)

  predicate Enabled(st: State, p: Proc) {
    match p
    case Main => (st.main == AwaitLine ==> st.mainSem > 0) && st.main != Finished
    case Passengers => st.pass == AwaitTurn || st.pass == AwaitScan ==> st.passSem > 0
    case Scanners =>
      (st.scan == AwaitCounter ==> st.counter > 0) && (st.scan == AwaitBag ==> st.scanSem > 0)
  }

  function MainStep(st: State, lines: seq<string>): State
    requires Enabled(st, Main)
  {
    match st.main
    case Serving =>
      if st.round >= |lines| then st.(main := Finished)
      else st.(line := lines[st.round], passSem := st.passSem + 1, main := AwaitLine, lineDone := false)
    case AwaitLine => st.(mainSem := st.mainSem - 1, main := Collecting)
    case Collecting =>
      st.(output := st.output + [st.ids], counter := st.counter + 1, round := st.round + 1, main := Serving)
  }

  function PassengersStep(st: State): State
    requires Enabled(st, Passengers)
  {
    match st.pass
    case Starting => st.(counter := st.counter + 1, pass := AwaitTurn)
    case AwaitTurn => st.(passSem := st.passSem - 1, ids := [], done := [], lug := "", pos := 0, pass := Splitting)
    case AwaitScan => st.(passSem := st.passSem - 1, lug := "", pos := st.pos + 1, pass := Splitting)
    case Splitting =>
      if st.pos >= |st.line| then st.(mainSem := st.mainSem + 1, pass := AwaitTurn)
      else
        var c, last := st.line[st.pos], st.pos == |st.line| - 1;
        var lug := (if c != ' ' then st.lug + [c] else st.lug) + (if last then "\n" else "");
        if c == ' ' || last then st.(lug := lug, scanSem := st.scanSem + 1, pass := AwaitScan)
        else st.(lug := lug, pos := st.pos + 1)
  }

  function ScannersStep(st: State): State
    requires Enabled(st, Scanners)
  {
    match st.scan
    case AwaitCounter => st.(counter := st.counter - 1, scan := AwaitBag)
    case AwaitBag => st.(scanSem := st.scanSem - 1, scan := Scanning)
    case Scanning =>
      var weight := Digits(BeforeNewline(st.lug));
      var st1 := if weight == 0 then st
        else st.(ids := st.ids + [Pick(st.loads)], loads := AddInt(st.loads, Pick(st.loads), weight),
                done := st.done + [weight]);
      if '\n' in st.lug then st1.(loads := IDLE, lineDone := true, passSem := st.passSem + 1, scan := AwaitCounter)
      else st1.(passSem := st.passSem + 1, scan := AwaitBag)
  }

  function Step(st: State, p: Proc, lines: seq<string>): State
    requires Enabled(st, p)
  {
    match p
    case Main => MainStep(st, lines)
    case Passengers => PassengersStep(st)
    case Scanners => ScannersStep(st)
  }

  // ----- how far a line has come

  /** The weights of the words finished before position pos, and the word in progress there. */
  ghost function Front(line: string, pos: nat): seq<int>
    requires pos <= |line|
  {
    var ws := Words(line[..pos]);
    Weights(ws[..|ws| - 1])
  }

  ghost function Back(line: string, pos: nat): string
    requires pos <= |line|
  {
    var ws := Words(line[..pos]);
    ws[|ws| - 1]
  }

  /** The word handed off at position pos, without its newline. */
  ghost function Handed(line: string, pos: nat): string
    requires pos < |line|
  {
    if line[pos] == ' ' then Back(line, pos) else Back(line, pos) + [line[pos]]
  }

  ghost function Scanned(line: string, pos: nat): seq<int>
    requires pos < |line|
  {
    Heavier(Front(line, pos), Digits(Handed(line, pos)))
  }

  /** The passenger process stops at spaces and at the end of the line. */
  ghost predicate HandsOff(line: string, pos: nat)
    requires pos < |line|
  {
    line[pos] == ' ' || pos == |line| - 1
  }

  lemma WordsStep(line: string, pos: nat)
    requires pos < |line|
    ensures line[pos] == ' ' ==> Front(line, pos + 1) == Scanned(line, pos) && Back(line, pos + 1) == ""
    ensures line[pos] != ' ' ==> Front(line, pos + 1) == Front(line, pos) && Back(line, pos + 1) == Back(line, pos) + [line[pos]]
  {
    assert line[..pos + 1][..pos] == line[..pos];
    var front, ws := Words(line[..pos]), Words(line[..pos + 1]);
    if line[pos] == ' ' {
      assert ws[..|ws| - 1] == front;
    } else {
      assert ws[..|ws| - 1] == front[..|front| - 1];
    }
  }

  /** When the last hand-off is scanned, all the line's bags have been. */
  lemma LastHandOff(line: string)
    requires line != ""
    ensures Scanned(line, |line| - 1) == BagWeights(line)
  {
    var pos := |line| - 1;
    WordsStep(line, pos);
    assert line[..|line|] == line;
    assert BagWeights(line) == Heavier(Front(line, |line|), Digits(Back(line, |line|)));
  }

  lemma IntOneMore(ws: seq<int>, w: int)
    ensures w != 0 ==> IntIds(Heavier(ws, w)) == IntIds(ws) + [Pick(IntLoads(ws))]
    ensures w != 0 ==> IntLoads(Heavier(ws, w)) == AddInt(IntLoads(ws), Pick(IntLoads(ws)), w)
  {
    assert (ws + [w])[..|ws|] == ws;
  }

  // ----- where the token is

  /** The ids in scannerid.txt are the greedy choices for what has been scanned. */
  ghost predicate Chosen(st: State) {
    st.ids == IntIds(st.done)
  }

  ghost predicate Sems(st: State, m: nat, p: nat, s: nat) {
    st.mainSem == m && st.passSem == p && st.scanSem == s
  }

  /** Main has it, between lines. */
  ghost predicate AtMain(st: State) {
    && Sems(st, 0, 0, 0) && (st.main == Serving || st.main == Finished) && st.scan != Scanning
    && (st.pass == Starting || st.pass == AwaitTurn) && st.loads == IDLE
  }

  /** Main has served a line to the passenger process. */
  ghost predicate ToPassengers(st: State) {
    && Sems(st, 0, 1, 0) && st.main == AwaitLine && st.scan != Scanning
    && (st.pass == Starting || st.pass == AwaitTurn) && st.loads == IDLE && !st.lineDone
  }

  /** The passenger process has it, at position pos of the line. */
  ghost predicate AtPassengers(st: State) {
    && Sems(st, 0, 0, 0) && st.main == AwaitLine && st.scan != Scanning && st.pass == Splitting
    && st.pos <= |st.line| && Chosen(st)
    && if st.pos < |st.line| || st.line == ""
       then st.lug == Back(st.line, st.pos) && st.done == Front(st.line, st.pos)
            && st.loads == IntLoads(st.done) && !st.lineDone
       else st.done == BagWeights(st.line) && st.loads == IDLE && st.lineDone
  }

  ghost predicate HandedOff(st: State) {
    && st.main == AwaitLine && st.pass == AwaitScan && st.pos < |st.line| && HandsOff(st.line, st.pos)
    && st.lug == Handed(st.line, st.pos) + (if st.pos == |st.line| - 1 then "\n" else "")
  }

  /** A hand-off is on its way to the scanner process, or being scanned there. */
  ghost predicate AtScanners(st: State) {
    && Sems(st, 0, 0, if st.scan == Scanning then 0 else 1) && HandedOff(st)
    && Chosen(st) && st.done == Front(st.line, st.pos) && st.loads == IntLoads(st.done) && !st.lineDone
  }

  /** The hand-off has been scanned. */
  ghost predicate BackToPassengers(st: State) {
    && Sems(st, 0, 1, 0) && HandedOff(st) && st.scan != Scanning
    && Chosen(st) && st.done == Scanned(st.line, st.pos)
    && st.lineDone == (st.pos == |st.line| - 1)
    && st.loads == if st.lineDone then IDLE else IntLoads(st.done)
  }

  /** All bags of the line have been scanned, and main is told or collecting the result. */
  ghost predicate ToMain(st: State) {
    && Sems(st, if st.main == Collecting then 0 else 1, 0, 0) && (st.main == AwaitLine || st.main == Collecting)
    && st.scan != Scanning && st.pass == AwaitTurn && st.loads == IDLE
    && Chosen(st) && st.done == BagWeights(st.line)
  }

  /** The scanner process can always get at the next bag: it is past "maincounter", or there is a
      unit there, or it is done with the line. */
  ghost predicate CounterOk(st: State) {
    st.scan == AwaitCounter && st.pass != Starting ==>
      st.counter > 0 || (st.lineDone && (st.main == AwaitLine || st.main == Collecting))
  }

  /** The output so far is what greedy on ints chooses for every line served. */
  ghost predicate Served(output: seq<seq<int>>, lines: seq<string>) {
    |output| <= |lines| && forall i :: 0 <= i < |output| ==> output[i] == IntIds(BagWeights(lines[i]))
  }

  ghost predicate OutputOk(st: State, lines: seq<string>) {
    && |st.output| == st.round && Served(st.output, lines)
    && (st.main == AwaitLine || st.main == Collecting ==> st.round < |lines| && st.line == lines[st.round])
    && (st.main == Finished ==> st.round == |lines|)
  }

  ghost predicate Located(st: State) {
    AtMain(st) || ToPassengers(st) || AtPassengers(st) || AtScanners(st) || BackToPassengers(st) || ToMain(st)
  }

  ghost predicate Inv(st: State, lines: seq<string>) {
    Located(st) && CounterOk(st) && OutputOk(st, lines)
  }

  ghost predicate NoNewlines(lines: seq<string>) {
    forall i :: 0 <= i < |lines| ==> '\n' !in lines[i]
  }

  // ----- every step moves the token on

  lemma {:induction false} WordChars(line: string)
    requires '\n' !in line
    ensures forall i :: 0 <= i < |Words(line)| ==> '\n' !in Words(line)[i]
  {
    if line != "" {
      WordChars(line[..|line| - 1]);
    }
  }

  lemma HandedIsRead(line: string, pos: nat, newline: bool)
    requires pos < |line| && '\n' !in line
    ensures var lug := Handed(line, pos) + (if newline then "\n" else "");
      BeforeNewline(lug) == Handed(line, pos) && ('\n' in lug <==> newline)
  {
    WordChars(line[..pos]);
    var handed := Handed(line, pos);
    assert '\n' !in handed;
    var lug := handed + (if newline then "\n" else "");
    assert lug[..|handed|] == handed;
    BeforeNewlineIs(lug, |handed|);
  }

  lemma ScanningStep(st: State, lines: seq<string>)
    requires AtScanners(st) && st.scan == Scanning && '\n' !in st.line
    ensures BackToPassengers(ScannersStep(st))
  {
    var last := st.pos == |st.line| - 1;
    HandedIsRead(st.line, st.pos, last);
    IntOneMore(st.done, Digits(Handed(st.line, st.pos)));
  }

  lemma SplittingStep(st: State)
    requires AtPassengers(st)
    ensures var st' := PassengersStep(st); AtPassengers(st') || AtScanners(st') || ToMain(st')
  {
    if st.pos < |st.line| {
      WordsStep(st.line, st.pos);
    } else {
      LineEnds(st);
    }
  }

  lemma LineEnds(st: State)
    requires AtPassengers(st) && st.pos == |st.line|
    ensures ToMain(PassengersStep(st))
  {
    if st.line == "" {
      assert st.line[..0] == "";
      assert Front("", 0) == [] && BagWeights("") == [];
    }
  }

  lemma ResumeStep(st: State)
    requires BackToPassengers(st)
    ensures AtPassengers(PassengersStep(st))
  {
    if st.lineDone {
      LastHandOff(st.line);
    } else {
      WordsStep(st.line, st.pos);
    }
  }

  lemma BeginStep(st: State)
    requires ToPassengers(st) && st.pass == AwaitTurn
    ensures AtPassengers(PassengersStep(st))
  {
    assert st.line[..0] == "";
    assert Words("")[..0] == [];
  }

  lemma StepKeepsLocated(st: State, p: Proc, lines: seq<string>)
    requires Inv(st, lines) && Enabled(st, p) && NoNewlines(lines)
    ensures Located(Step(st, p, lines))
  {
    match p
    case Main =>
    case Passengers =>
      if AtPassengers(st) {
        SplittingStep(st);
      } else if BackToPassengers(st) {
        ResumeStep(st);
      } else if ToPassengers(st) && st.pass == AwaitTurn {
        BeginStep(st);
      }
    case Scanners =>
      if st.scan == Scanning {
        ScanningStep(st, lines);
      }
  }

  lemma StepKeepsCounter(st: State, p: Proc, lines: seq<string>)
    requires Inv(st, lines) && Enabled(st, p)
    ensures CounterOk(Step(st, p, lines))
  {
  }

  lemma ServedOneMore(output: seq<seq<int>>, lines: seq<string>, ids: seq<int>)
    requires Served(output, lines) && |output| < |lines| && ids == IntIds(BagWeights(lines[|output|]))
    ensures Served(output + [ids], lines)
  {
  }

  lemma OthersKeepOutput(st: State, p: Proc, lines: seq<string>)
    requires p != Main && Enabled(st, p)
    ensures var st' := Step(st, p, lines);
      st'.output == st.output && st'.round == st.round && st'.main == st.main && st'.line == st.line
  {
  }

  lemma MainKeepsOutput(st: State, lines: seq<string>)
    requires OutputOk(st, lines) && Enabled(st, Main)
    requires st.main == Collecting ==> st.ids == IntIds(BagWeights(st.line))
    ensures OutputOk(MainStep(st, lines), lines)
  {
    if st.main == Collecting {
      ServedOneMore(st.output, lines, st.ids);
    }
  }

  lemma CollectedIds(st: State)
    requires Located(st) && st.main == Collecting
    ensures st.ids == IntIds(BagWeights(st.line))
  {
    assert ToMain(st);
  }

  lemma StepKeepsOutput(st: State, p: Proc, lines: seq<string>)
    requires Inv(st, lines) && Enabled(st, p)
    ensures OutputOk(Step(st, p, lines), lines)
  {
    if p == Main {
      if st.main == Collecting {
        CollectedIds(st);
      }
      MainKeepsOutput(st, lines);
    } else {
      OthersKeepOutput(st, p, lines);
    }
  }

  lemma StepKeepsInv(st: State, p: Proc, lines: seq<string>)
    requires Inv(st, lines) && Enabled(st, p) && NoNewlines(lines)
    ensures Inv(Step(st, p, lines), lines)
  {
    StepKeepsLocated(st, p, lines);
    StepKeepsCounter(st, p, lines);
    StepKeepsOutput(st, p, lines);
  }

  // ----- whole runs

  ghost predicate Initial(st: State) {
    && st.main == Serving && st.pass == Starting && st.scan == AwaitCounter && Sems(st, 0, 0, 0) && st.counter == 0
    && st.round == 0 && st.output == [] && st.loads == IDLE
  }

  ghost predicate Run(trace: seq<State>, procs: seq<Proc>, lines: seq<string>) {
    && |trace| == |procs| + 1
    && (procs != [] ==>
      var n := |procs| - 1;
      && Enabled(trace[n], procs[n]) && trace[n + 1] == Step(trace[n], procs[n], lines)
      && Run(trace[..n + 1], procs[..n], lines))
  }

  lemma {:induction false} RunsKeepInv(trace: seq<State>, procs: seq<Proc>, lines: seq<string>)
    requires Run(trace, procs, lines) && Initial(trace[0]) && NoNewlines(lines)
    ensures Inv(trace[|procs|], lines)
    decreases |procs|
  {
    if procs != [] {
      var n := |procs| - 1;
      RunsKeepInv(trace[..n + 1], procs[..n], lines);
      StepKeepsInv(trace[n], procs[n], lines);
    }
  }

  /** In every reachable state there is exactly one token: a unit of one of the three semaphores, or
      one process that is past its Down and has not done its Up. */
  lemma OneToken(st: State, lines: seq<string>)
    requires Inv(st, lines)
    ensures st.mainSem + st.passSem + st.scanSem + One(st.main != AwaitLine) + One(st.pass == Splitting)
            + One(st.scan == Scanning) == 1
  {
  }

  /** Until main has finished, some process can always go on. */
  lemma NoDeadlock(st: State, lines: seq<string>)
    requires Inv(st, lines) && st.main != Finished
    ensures exists p :: Enabled(st, p)
  {
    if AtMain(st) {
      assert Enabled(st, Main);
    } else if ToMain(st) {
      assert Enabled(st, Main);
    } else if AtScanners(st) {
      assert Enabled(st, Scanners);
    } else {
      assert Enabled(st, Passengers);
    }
  }

  /** When main finishes, the output has the choices for every line, in order. */
  lemma FinishedOutput(st: State, lines: seq<string>)
    requires Inv(st, lines) && st.main == Finished
    ensures |st.output| == |lines| && forall i :: 0 <= i < |lines| ==> st.output[i] == IntIds(BagWeights(lines[i]))
  {
  }

  // ----- and every run ends

  ghost function LinesLeft(lines: seq<string>, round: nat): nat
    decreases |lines| - round
  {
    if round >= |lines| then 0 else 4 * |lines[round]| + 6 + LinesLeft(lines, round + 1)
  }

  /** The work left on the line being served. */
  ghost function LineLeft(st: State): int {
    if st.main == Finished then 0
    else if st.main == Serving then 1
    else if st.main == Collecting then 3
    else if st.mainSem > 0 then 4
    else if st.pass == Splitting then 4 * (|st.line| - st.pos) + 5
    else if st.pass == AwaitScan then
      4 * (|st.line| - st.pos) + (if st.scanSem > 0 then 4 else if st.scan == Scanning then 3 else 2)
    else 4 * |st.line| + 6
  }

  ghost function WorkLeft(st: State, lines: seq<string>): int {
    LineLeft(st) + st.counter + 2 * One(st.pass == Starting)
    + LinesLeft(lines, if st.main == Serving || st.main == Finished then st.round else st.round + 1)
  }

  /** The part of the invariant that the measure depends on. */
  ghost predicate Control(st: State) {
    && (st.main == AwaitLine && st.pass == Splitting ==> st.pos <= |st.line| && st.mainSem == 0)
    && (st.main == AwaitLine && st.pass == AwaitScan ==> st.pos < |st.line| && st.mainSem == 0)
    && (st.pass == Splitting || st.pass == AwaitScan ==> st.main == AwaitLine)
    && (st.pass == Splitting ==> st.scanSem == 0 && st.scan != Scanning)
    && (st.pass == AwaitScan && st.passSem > 0 ==> st.scanSem == 0 && st.scan != Scanning)
    && (st.pass == AwaitTurn && st.passSem > 0 ==> st.main == AwaitLine && st.mainSem == 0)
    && (st.scanSem > 0 || st.scan == Scanning ==> st.pass == AwaitScan)
    && st.scanSem <= 1 && (st.scanSem > 0 ==> st.scan != Scanning)
    && (st.main != AwaitLine ==> st.mainSem == 0) && st.mainSem <= 1
  }

  lemma InvControl(st: State, lines: seq<string>)
    requires Inv(st, lines)
    ensures Control(st)
  {
  }

  lemma MainLowersWork(st: State, lines: seq<string>)
    requires Control(st) && Enabled(st, Main)
    requires st.main == Serving ==> st.passSem == 0 && (st.pass == Starting || st.pass == AwaitTurn)
    requires st.main == AwaitLine ==> st.pass == AwaitTurn
    ensures 0 <= WorkLeft(MainStep(st, lines), lines) < WorkLeft(st, lines)
  {
  }

  lemma PassengersLowerWork(st: State, lines: seq<string>)
    requires Control(st) && Enabled(st, Passengers)
    ensures 0 <= WorkLeft(PassengersStep(st), lines) < WorkLeft(st, lines)
  {
  }

  lemma ScannersLowerWork(st: State, lines: seq<string>)
    requires Control(st) && Enabled(st, Scanners)
    ensures 0 <= WorkLeft(ScannersStep(st), lines) < WorkLeft(st, lines)
  {
  }

  /** Every step of any process leaves less to do: no run goes on forever, and since none deadlocks
      before main has finished, main finishes in every run that is continued as long as possible. */
  lemma StepLowersWork(st: State, p: Proc, lines: seq<string>)
    requires Inv(st, lines) && Enabled(st, p)
    ensures 0 <= WorkLeft(Step(st, p, lines), lines) < WorkLeft(st, lines)
  {
    InvControl(st, lines);
    match p
    case Main => MainLowersWork(st, lines);
    case Passengers => PassengersLowerWork(st, lines);
    case Scanners => ScannersLowerWork(st, lines);
  }

  lemma {:induction false} RunsUseUpWork(trace: seq<State>, procs: seq<Proc>, lines: seq<string>)
    requires Run(trace, procs, lines) && Initial(trace[0]) && NoNewlines(lines)
    ensures |procs| + WorkLeft(trace[|procs|], lines) <= WorkLeft(trace[0], lines)
    decreases |procs|
  {
    if procs != [] {
      var n := |procs| - 1;
      RunsUseUpWork(trace[..n + 1], procs[..n], lines);
      RunsKeepInv(trace[..n + 1], procs[..n], lines);
      StepLowersWork(trace[n], procs[n], lines);
    }
  }

  /** The protocol as a whole: after any steps of the three programs in any order there is one token, some
      process can go on unless main has finished, the output has the choices made for every line served, which for a
      line of ints are the greedy ones exactly when no total overflows before the last bag, and no run is longer than
      the work there was at the start. */
  lemma EveryRun(trace: seq<State>, procs: seq<Proc>, lines: seq<string>)
    requires Run(trace, procs, lines) && Initial(trace[0]) && NoNewlines(lines)
    ensures var st := trace[|procs|];
      && st.mainSem + st.passSem + st.scanSem
         + One(st.main != AwaitLine) + One(st.pass == Splitting) + One(st.scan == Scanning) == 1
      && (st.main != Finished ==> exists p :: Enabled(st, p))
      && Served(st.output, lines) && (st.main == Finished ==> |st.output| == |lines|)
      && (forall i :: 0 <= i < |st.output| ==> Greedily(BagWeights(lines[i]), st.output[i], true))
      && (forall i :: 0 <= i < |st.output| && AllBelow(Written(lines[i]), 0x8000_0000) ==>
           (st.output[i] == GreedyIds(Written(lines[i])) <==> FitsBeforeLast(Written(lines[i]))))
      && |procs| + WorkLeft(st, lines) <= WorkLeft(trace[0], lines)
  {
    var st := trace[|procs|];
    RunsKeepInv(trace, procs, lines);
    RunsUseUpWork(trace, procs, lines);
    forall i | 0 <= i < |st.output|
      ensures Greedily(BagWeights(lines[i]), st.output[i], true)
    {
      OnlyGreedy(BagWeights(lines[i]), st.output[i], true);
    }
    forall i | 0 <= i < |st.output| && AllBelow(Written(lines[i]), 0x8000_0000)
      ensures st.output[i] == GreedyIds(Written(lines[i])) <==> FitsBeforeLast(Written(lines[i]))
    {
      ChoicesAsWritten(lines[i]);
    }
    OneToken(st, lines);
    if st.main != Finished {
      NoDeadlock(st, lines);
    } else {
      FinishedOutput(st, lines);
    }
  }
}
