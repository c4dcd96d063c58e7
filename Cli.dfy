/**
 * The replay command line tool: its options, the decoding of ADD and
 * CANCEL records into engine calls, and the replay of a file's lines
 * against a fresh engine with the four counters it reports. The file is
 * given as its sequence of lines; printing is not modelled.
 */
module Cli {
  import opened EngineTypes
  import opened BookSpec
  import opened Engine
  import opened CliText

  // Options

  datatype Args = Args(
    replayFile: string,
    outFile: string,
    depth: int,
    printTrades: bool,
    printMetrics: bool,
    noHuman: bool)

  /** The options before any argument is read. */
  const DefaultArgs := Args("", "", 5, false, true, false)

  /**
   * What `parse_args` ends with: the options, or no options because help
   * was asked for or no replay file was named, or the termination of the
   * program when `std::stoi` throws on the depth value.
   */
  datatype ArgsOutcome = Parsed(args: Args) | Usage | MissingReplay | BadDepth

  /** One turn of the option loop: the position and options to go on with, or the end of the parse. */
  datatype ArgStep = Next(i: nat, acc: Args) | Done(outcome: ArgsOutcome)

  /**
   * The option loop's body at argument `i`. An option that takes a value
   * only does so when one follows it; arguments it does not recognise are
   * skipped. Each option changes only its own field, and only when named.
   */
  function ArgStepAt(argv: seq<string>, i: nat, acc: Args): (r: ArgStep)
    requires i < |argv|
    ensures r.Next? ==> i < r.i <= i + 2
    ensures r.Next? && r.acc.replayFile != acc.replayFile ==> argv[i] == "--replay" && i + 1 < |argv| && r.acc.replayFile == argv[i + 1]
    ensures r.Next? && r.acc.depth != acc.depth ==>
      argv[i] == "--depth" && i + 1 < |argv| && Stoi(argv[i + 1]) == Some(r.acc.depth)
    ensures r.Next? && r.acc.printTrades != acc.printTrades ==> argv[i] == "--print-trades" && r.acc.printTrades
    ensures r.Next? && r.acc.printMetrics != acc.printMetrics ==> Ieq(argv[i], "--no-metrics") && !r.acc.printMetrics
    ensures r.Next? && r.acc.noHuman != acc.noHuman ==> Ieq(argv[i], "--no-human") && r.acc.noHuman
    ensures r.Next? && r.acc.outFile != acc.outFile ==> argv[i] == "--out" && i + 1 < |argv| && r.acc.outFile == argv[i + 1]
    ensures r.Done? ==> r.outcome == Usage || r.outcome == BadDepth
    ensures argv[i] == "--replay" && i + 1 < |argv| ==> r == Next(i + 2, acc.(replayFile := argv[i + 1]))
    ensures argv[i] == "--depth" && i + 1 < |argv| ==>
      r == if Stoi(argv[i + 1]).Some? then Next(i + 2, acc.(depth := Stoi(argv[i + 1]).value)) else Done(BadDepth)
    ensures argv[i] == "--print-trades" ==> r == Next(i + 1, acc.(printTrades := true))
    ensures Ieq(argv[i], "--no-metrics") ==> r == Next(i + 1, acc.(printMetrics := false))
    ensures Ieq(argv[i], "--no-human") ==> r == Next(i + 1, acc.(noHuman := true))
    ensures argv[i] == "--out" && i + 1 < |argv| ==> r == Next(i + 2, acc.(outFile := argv[i + 1]))
    ensures IsHelpAt(argv, i) ==> r == Done(Usage)
    ensures r.Done? <==> IsHelpAt(argv, i) || BadDepthAt(argv, i)
    ensures r.Next? ==> r.i == i + Width(argv, i)
  {
    var arg := argv[i];
    if arg == "--replay" && i + 1 < |argv| then Next(i + 2, acc.(replayFile := argv[i + 1]))
    else if arg == "--depth" && i + 1 < |argv| then
      match Stoi(argv[i + 1])
      case None => Done(BadDepth)
      case Some(d) => Next(i + 2, acc.(depth := d))
    else if arg == "--print-trades" then Next(i + 1, acc.(printTrades := true))
    else if Ieq(arg, "--no-metrics") then Next(i + 1, acc.(printMetrics := false))
    else if Ieq(arg, "--no-human") then Next(i + 1, acc.(noHuman := true))
    else if arg == "--out" && i + 1 < |argv| then Next(i + 2, acc.(outFile := argv[i + 1]))
    else if arg == "-h" || arg == "--help" then Done(Usage)
    else Next(i + 1, acc)
  }

  /** The option loop from argument `i` on with the options `acc` read so far. */
  function ParseArgsFrom(argv: seq<string>, i: nat, acc: Args): ArgsOutcome
    decreases |argv| - i
  {
    if i >= |argv| then
      if acc.replayFile == "" then MissingReplay else Parsed(acc)
    else
      match ArgStepAt(argv, i, acc)
      case Done(o) => o
      case Next(i', acc') => ParseArgsFrom(argv, i', acc')
  }

  /** `parse_args` on the whole argument vector; `argv[0]` is the program name. */
  function ParseArgsSpec(argv: seq<string>): ArgsOutcome
  {
    ParseArgsFrom(argv, 1, DefaultArgs)
  }

  /** `parse_args`, as the loop over the arguments the source runs. */
  method ParseArgs(argv: seq<string>) returns (r: ArgsOutcome)
    ensures r == ParseArgsSpec(argv)
  {
    var result := DefaultArgs;
    var i := 1;
    while i < |argv|
      invariant 1 <= i
      invariant ParseArgsFrom(argv, i, result) == ParseArgsSpec(argv)
      decreases |argv| - i
    {
      var arg := argv[i];
      if arg == "--replay" && i + 1 < |argv| {
        i := i + 1;
        result := result.(replayFile := argv[i]);
      } else if arg == "--depth" && i + 1 < |argv| {
        i := i + 1;
        var d := Stoi(argv[i]);
        if d.None? {
          return BadDepth;
        }
        result := result.(depth := d.value);
      } else if arg == "--print-trades" {
        result := result.(printTrades := true);
      } else if Ieq(arg, "--no-metrics") {
        result := result.(printMetrics := false);
      } else if Ieq(arg, "--no-human") {
        result := result.(noHuman := true);
      } else if arg == "--out" && i + 1 < |argv| {
        i := i + 1;
        result := result.(outFile := argv[i]);
      } else if arg == "-h" || arg == "--help" {
        return Usage;
      }
      i := i + 1;
    }
    if result.replayFile == "" {
      return MissingReplay;
    }
    return Parsed(result);
  }

  // The positions the option loop visits

  /** `-h` or `--help` at position `p`. */
  predicate IsHelpAt(argv: seq<string>, p: nat)
  {
    p < |argv| && (argv[p] == "-h" || argv[p] == "--help")
  }

  /** `--depth` at position `p`, followed by a value `std::stoi` rejects. */
  predicate BadDepthAt(argv: seq<string>, p: nat)
  {
    p + 1 < |argv| && argv[p] == "--depth" && Stoi(argv[p + 1]).None?
  }

  /** `--replay` at position `p`, followed by a value. */
  predicate ReplayAt(argv: seq<string>, p: nat)
  {
    p + 1 < |argv| && argv[p] == "--replay"
  }

  /** How many arguments the loop consumes at `i`: two for an option with a value, one otherwise. */
  function Width(argv: seq<string>, i: nat): nat
    requires i < |argv|
  {
    if (argv[i] == "--replay" || argv[i] == "--depth" || argv[i] == "--out") && i + 1 < |argv| then 2 else 1
  }

  /**
   * The positions the loop visits from `i` on, ending at the first help
   * or rejected depth value. A value consumed by an option is not visited.
   */
  function StepPositions(argv: seq<string>, i: nat): seq<nat>
    decreases |argv| - i
  {
    if i >= |argv| then []
    else [i] + (if IsHelpAt(argv, i) || BadDepthAt(argv, i) then [] else StepPositions(argv, i + Width(argv, i)))
  }

  /** The value of the last `--replay` among the visited positions, or `dflt` when there is none. */
  function LastReplay(argv: seq<string>, ps: seq<nat>, dflt: string): string
    decreases |ps|
  {
    if ps == [] then dflt
    else
      var p := ps[|ps| - 1];
      if ReplayAt(argv, p) then argv[p + 1] else LastReplay(argv, ps[..|ps| - 1], dflt)
  }

  /** The last `--replay` after position `p` and the ones before: the earlier one is only a default. */
  lemma {:induction false} LastReplayCons(argv: seq<string>, p: nat, rest: seq<nat>, dflt: string)
    ensures LastReplay(argv, [p] + rest, dflt)
      == LastReplay(argv, rest, if ReplayAt(argv, p) then argv[p + 1] else dflt)
    decreases |rest|
  {
    if rest != [] {
      var ps := [p] + rest;
      assert ps[|ps| - 1] == rest[|rest| - 1];
      assert ps[..|ps| - 1] == [p] + rest[..|rest| - 1];
      LastReplayCons(argv, p, rest[..|rest| - 1], dflt);
    }
  }

  /**
   * The option loop from `i` on: usage exactly when it reaches a help
   * argument, termination exactly when it reaches a `--depth` value
   * `std::stoi` rejects; otherwise parsed options exactly when the last
   * `--replay` value it reaches (or the one it started with) is not empty,
   * and then that is the replay file.
   */
  lemma {:induction false} ParseArgsFromOutcome(argv: seq<string>, i: nat, acc: Args)
    ensures var ps := StepPositions(argv, i);
      var o := ParseArgsFrom(argv, i, acc);
      var file := LastReplay(argv, ps, acc.replayFile);
      && (o == Usage <==> exists p :: p in ps && IsHelpAt(argv, p))
      && (o == BadDepth <==> exists p :: p in ps && BadDepthAt(argv, p))
      && ((forall p :: p in ps ==> !IsHelpAt(argv, p) && !BadDepthAt(argv, p)) ==>
            && (o.Parsed? <==> file != "")
            && (o.Parsed? ==> o.args.replayFile == file)
            && (!o.Parsed? ==> o == MissingReplay))
    decreases |argv| - i
  {
    if i < |argv| {
      var step := ArgStepAt(argv, i, acc);
      if step.Next? {
        var rest := StepPositions(argv, step.i);
        assert StepPositions(argv, i) == [i] + rest;
        ParseArgsFromOutcome(argv, step.i, step.acc);
        LastReplayCons(argv, i, rest, acc.replayFile);
        assert step.acc.replayFile == if ReplayAt(argv, i) then argv[i + 1] else acc.replayFile;
      } else {
        assert StepPositions(argv, i) == [i];
      }
    }
  }

  /**
   * `parse_args`: no options (usage) exactly when the loop reaches `-h` or
   * `--help`, termination exactly when it reaches a `--depth` value
   * `std::stoi` rejects; otherwise the options exactly when the last
   * `--replay` value it reaches is not empty, with that replay file, and
   * the missing-replay error when there is none.
   */
  lemma ParseArgsOutcome(argv: seq<string>)
    ensures var ps := StepPositions(argv, 1);
      var o := ParseArgsSpec(argv);
      var file := LastReplay(argv, ps, "");
      && (o == Usage <==> exists p :: p in ps && IsHelpAt(argv, p))
      && (o == BadDepth <==> exists p :: p in ps && BadDepthAt(argv, p))
      && ((forall p :: p in ps ==> !IsHelpAt(argv, p) && !BadDepthAt(argv, p)) ==>
            && (o.Parsed? <==> file != "")
            && (o.Parsed? ==> o.args.replayFile == file)
            && (!o.Parsed? ==> o == MissingReplay))
  {
    ParseArgsFromOutcome(argv, 1, DefaultArgs);
  }

  /** Help at any position the loop reaches stops the parse with the usage text. */
  lemma ParseArgsHelp(argv: seq<string>, p: nat)
    requires p in StepPositions(argv, 1) && IsHelpAt(argv, p)
    ensures ParseArgsSpec(argv) == Usage
  {
    ParseArgsOutcome(argv);
  }

  /** A `--depth` value `std::stoi` rejects, at any position the loop reaches, ends the program. */
  lemma ParseArgsBadDepth(argv: seq<string>, p: nat)
    requires p in StepPositions(argv, 1) && BadDepthAt(argv, p)
    ensures ParseArgsSpec(argv) == BadDepth
  {
    ParseArgsOutcome(argv);
  }

  /**
   * Parsed options always name a replay file, and it is the value of some
   * `--replay` argument.
   */
  lemma {:induction false} ParseArgsNamesReplay(argv: seq<string>, i: nat, acc: Args)
    requires i >= 1
    requires acc.replayFile != "" ==> NamedReplay(argv, acc.replayFile)
    ensures var r := ParseArgsFrom(argv, i, acc);
      r.Parsed? ==> r.args.replayFile != "" && NamedReplay(argv, r.args.replayFile)
    decreases |argv| - i
  {
    if i < |argv| {
      var step := ArgStepAt(argv, i, acc);
      if step.Next? {
        if step.acc.replayFile != acc.replayFile {
          assert NamedReplay(argv, step.acc.replayFile) by {
            assert argv[i] == "--replay" && argv[i + 1] == step.acc.replayFile;
          }
        }
        ParseArgsNamesReplay(argv, step.i, step.acc);
      }
    }
  }

  /** `file` follows a `--replay` argument somewhere after the program name. */
  predicate NamedReplay(argv: seq<string>, file: string)
  {
    exists j :: 1 <= j < |argv| - 1 && argv[j] == "--replay" && argv[j + 1] == file
  }

  /** Parsed options name a replay file given on the command line. */
  lemma ParseArgsReplayFile(argv: seq<string>)
    ensures var r := ParseArgsSpec(argv);
      r.Parsed? ==> r.args.replayFile != "" && NamedReplay(argv, r.args.replayFile)
  {
    ParseArgsNamesReplay(argv, 1, DefaultArgs);
  }

  /** The recognised arguments from position `i` on. */
  predicate Mentions(argv: seq<string>, i: nat, name: string)
  {
    exists j :: i <= j < |argv| && argv[j] == name
  }

  predicate MentionsIeq(argv: seq<string>, i: nat, name: string)
  {
    exists j :: i <= j < |argv| && Ieq(argv[j], name)
  }

  /**
   * An option not named among the remaining arguments keeps the value it
   * has: the defaults hold for every option the command line leaves out.
   */
  lemma {:induction false} ParseArgsKeeps(argv: seq<string>, i: nat, acc: Args)
    ensures var r := ParseArgsFrom(argv, i, acc);
      r.Parsed? ==>
        && (!Mentions(argv, i, "--depth") ==> r.args.depth == acc.depth)
        && (!Mentions(argv, i, "--print-trades") ==> r.args.printTrades == acc.printTrades)
        && (!MentionsIeq(argv, i, "--no-metrics") ==> r.args.printMetrics == acc.printMetrics)
        && (!MentionsIeq(argv, i, "--no-human") ==> r.args.noHuman == acc.noHuman)
        && (!Mentions(argv, i, "--out") ==> r.args.outFile == acc.outFile)
    decreases |argv| - i
  {
    if i < |argv| {
      var step := ArgStepAt(argv, i, acc);
      if step.Next? {
        MentionsFrom(argv, i, step.i - i);
        ParseArgsKeeps(argv, step.i, step.acc);
      }
    }
  }

  /** A name mentioned from `i + k` on is mentioned from `i` on. */
  lemma MentionsFrom(argv: seq<string>, i: nat, k: nat)
    ensures forall name :: Mentions(argv, i + k, name) ==> Mentions(argv, i, name)
    ensures forall name :: MentionsIeq(argv, i + k, name) ==> MentionsIeq(argv, i, name)
  {
  }

  /**
   * The defaults: depth 5, no trade printing, metrics printed, human
   * output on, no output file, unless the command line says otherwise.
   */
  lemma ParseArgsDefaults(argv: seq<string>)
    ensures var r := ParseArgsSpec(argv);
      r.Parsed? ==>
        && (!Mentions(argv, 1, "--depth") ==> r.args.depth == 5)
        && (!Mentions(argv, 1, "--print-trades") ==> !r.args.printTrades)
        && (!MentionsIeq(argv, 1, "--no-metrics") ==> r.args.printMetrics)
        && (!MentionsIeq(argv, 1, "--no-human") ==> !r.args.noHuman)
        && (!Mentions(argv, 1, "--out") ==> r.args.outFile == "")
  {
    ParseArgsKeeps(argv, 1, DefaultArgs);
  }

  // Records

  /** The upper-case names the source compares against, case-insensitively. */
  function SideName(s: Side): string
  {
    if s == Buy then "BUY" else "SELL"
  }

  function TypeName(t: OrderType): string
  {
    if t == Limit then "LIMIT" else "MARKET"
  }

  function TifName(t: TimeInForce): string
  {
    match t
    case GTC => "GTC"
    case IOC => "IOC"
    case FOK => "FOK"
  }

  /**
   * An ADD record of at least seven cells as an order command, or None
   * when a number in it does not convert (the program then terminates):
   * side BUY only for "BUY" in any case, type LIMIT only for "LIMIT", IOC
   * or FOK when named and GTC otherwise, an empty price read as 0, the
   * optional eighth cell the order id when not empty. The record's
   * timestamp is not carried into the command.
   */
  function DecodeAdd(cells: seq<string>): (r: Option<OrderCmd>)
    requires |cells| >= 7
    ensures r.None? <==>
      || (cells[5] != "" && Stoll(cells[5]).None?)
      || Stoll(cells[6]).None?
      || (|cells| >= 8 && cells[7] != "" && Stoull(cells[7]).None?)
    ensures r.Some? ==>
      && r.value.price == (if cells[5] == "" then 0 else Stoll(cells[5]).value)
      && r.value.qty == Stoll(cells[6]).value
      && (r.value.orderId.Some? ==> |cells| >= 8 && Stoull(cells[7]) == r.value.orderId)
  {
    var side := if Ieq(cells[2], "BUY") then Buy else Sell;
    var orderType := if Ieq(cells[3], "LIMIT") then Limit else Market;
    var tif := if Ieq(cells[4], "IOC") then IOC else if Ieq(cells[4], "FOK") then FOK else GTC;
    var price := if cells[5] == "" then Some(0) else Stoll(cells[5]);
    var qty := Stoll(cells[6]);
    var idText := if |cells| >= 8 then cells[7] else "";
    var id: Option<Option<nat>> :=
      if idText == "" then Some(None)
      else match Stoull(idText) case Some(n) => Some(Some(n)) case None => None;
    if price.None? || qty.None? || id.None? then None
    else Some(DefaultOrderCmd.(orderId := id.value, side := side, orderType := orderType, timeInForce := tif,
                               price := price.value, qty := qty.value))
  }

  /** The field rules of an ADD record. */
  lemma DecodeAddFields(cells: seq<string>)
    requires |cells| >= 7
    ensures var r := DecodeAdd(cells);
      r.Some? ==>
        && (r.value.side == Buy <==> Ieq(cells[2], "BUY"))
        && (r.value.orderType == Limit <==> Ieq(cells[3], "LIMIT"))
        && (r.value.timeInForce == IOC <==> Ieq(cells[4], "IOC"))
        && (r.value.timeInForce == FOK <==> !Ieq(cells[4], "IOC") && Ieq(cells[4], "FOK"))
        && (cells[5] == "" ==> r.value.price == 0)
        && (r.value.orderId.None? <==> |cells| < 8 || cells[7] == "")
        && r.value.timestamp == 0
  {
  }

  /**
   * The cells of an ADD record for a command: timestamp text, "ADD", the
   * side, type and time-in-force names, price and quantity in decimal,
   * and the order id when the command has one.
   */
  function AddRecord(ts: string, c: OrderCmd): (cells: seq<string>)
    ensures |cells| >= 7
  {
    [ts, "ADD", SideName(c.side), TypeName(c.orderType), TifName(c.timeInForce),
     SignedDecimal(c.price), SignedDecimal(c.qty)]
    + (if c.orderId.Some? then [DecimalString(c.orderId.value)] else [])
  }

  /** Commands a record can carry: 64-bit price and quantity, a 64-bit id, no timestamp. */
  predicate Recordable(c: OrderCmd)
  {
    && -0x8000_0000_0000_0000 <= c.price < 0x8000_0000_0000_0000
    && -0x8000_0000_0000_0000 <= c.qty < 0x8000_0000_0000_0000
    && (c.orderId.Some? ==> c.orderId.value < 0x1_0000_0000_0000_0000)
    && c.timestamp == 0
  }

  /** Decoding the record of a command gives the command back. */
  lemma DecodeAddRecord(ts: string, c: OrderCmd)
    requires Recordable(c)
    ensures DecodeAdd(AddRecord(ts, c)) == Some(c)
  {
    var cells := AddRecord(ts, c);
    assert cells[2] == SideName(c.side) && cells[3] == TypeName(c.orderType) && cells[4] == TifName(c.timeInForce);
    assert cells[5] == SignedDecimal(c.price) && cells[6] == SignedDecimal(c.qty);
    NamesDecode(c);
    DecimalCellPlain(c.price);
    StollOfDecimal(c.price);
    StollOfDecimal(c.qty);
    if c.orderId.Some? {
      assert cells[7] == DecimalString(c.orderId.value);
      StoullOfDecimal(c.orderId.value);
    } else {
      assert |cells| == 7;
    }
  }

  /** The names the record writes decode to the values they name. */
  lemma NamesDecode(c: OrderCmd)
    ensures Ieq(SideName(c.side), "BUY") <==> c.side == Buy
    ensures Ieq(TypeName(c.orderType), "LIMIT") <==> c.orderType == Limit
    ensures Ieq(TifName(c.timeInForce), "IOC") <==> c.timeInForce == IOC
    ensures Ieq(TifName(c.timeInForce), "FOK") <==> c.timeInForce == FOK
  {
    if c.timeInForce == GTC {
      assert TifName(c.timeInForce)[0] == 'G';
    } else if c.timeInForce == IOC {
      assert TifName(c.timeInForce)[0] == 'I';
    } else {
      assert TifName(c.timeInForce)[0] == 'F';
    }
  }

  /** The line of an ADD record, cells joined by commas. */
  function AddLine(ts: string, c: OrderCmd): string
  {
    JoinCommas(AddRecord(ts, c))
  }

  /** A timestamp cell that survives the line's trimming and splitting. */
  predicate PlainCell(ts: string)
  {
    ts != [] && ts[0] != '#' && ',' !in ts && NoSurroundingSpace(ts)
  }

  /** The line of an ADD record reads back as its cells. */
  lemma AddLineCells(ts: string, c: OrderCmd)
    requires PlainCell(ts)
    ensures Trim(AddLine(ts, c)) == AddLine(ts, c)
    ensures SplitCsvLine(AddLine(ts, c)) == AddRecord(ts, c)
  {
    var cells := AddRecord(ts, c);
    RecordCellsPlain(ts, c);
    SplitJoin(cells);
    AddLineTrimmed(ts, c);
  }

  /** The line of an ADD record neither starts nor ends with whitespace. */
  lemma AddLineTrimmed(ts: string, c: OrderCmd)
    requires PlainCell(ts)
    ensures Trim(AddLine(ts, c)) == AddLine(ts, c)
  {
    var cells := AddRecord(ts, c);
    RecordCellsPlain(ts, c);
    assert NoSurroundingSpace(cells[0]) && NoSurroundingSpace(cells[|cells| - 1]);
    JoinedTrimmed(cells);
  }

  /**
   * Cells whose first starts and whose last ends with something other than
   * whitespace join into a trimmed line.
   */
  lemma JoinedTrimmed(cells: seq<string>)
    requires |cells| >= 1 && cells[0] != [] && cells[|cells| - 1] != []
    requires !IsSpace(cells[0][0]) && !IsSpace(cells[|cells| - 1][|cells[|cells| - 1]| - 1])
    ensures Trim(JoinCommas(cells)) == JoinCommas(cells)
  {
    var line := JoinCommas(cells);
    JoinFirst(cells);
    JoinLast(cells);
    assert NoSurroundingSpace(line);
    assert [] + line + [] == line;
    TrimExact([], line, []);
  }

  /** Every cell of an ADD record is comma-free without surrounding whitespace, and the last is not empty. */
  lemma RecordCellsPlain(ts: string, c: OrderCmd)
    requires PlainCell(ts)
    ensures var cells := AddRecord(ts, c);
      && (forall i :: 0 <= i < |cells| ==> ',' !in cells[i] && NoSurroundingSpace(cells[i]))
      && cells[|cells| - 1] != ""
  {
    var cells := AddRecord(ts, c);
    DecimalCellPlain(c.price);
    DecimalCellPlain(c.qty);
    if c.orderId.Some? {
      DecimalCellPlain(c.orderId.value);
      assert cells[7] == SignedDecimal(c.orderId.value);
    }
  }

  /** Decimal text is comma-free and has no surrounding whitespace. */
  lemma DecimalCellPlain(v: int)
    ensures SignedDecimal(v) != "" && ',' !in SignedDecimal(v) && NoSurroundingSpace(SignedDecimal(v))
  {
    var ds := DecimalString(if v < 0 then -v else v);
    assert forall i :: 0 <= i < |ds| ==> IsDigit(ds[i]);
  }

  /** A joined line starts with its first cell's first character. */
  lemma JoinFirst(cells: seq<string>)
    requires |cells| >= 1 && cells[0] != []
    ensures JoinCommas(cells) != [] && JoinCommas(cells)[0] == cells[0][0]
  {
  }

  /** A joined line ends with its last cell's last character. */
  lemma {:induction false} JoinLast(cells: seq<string>)
    requires |cells| >= 1 && cells[|cells| - 1] != []
    ensures var line := JoinCommas(cells);
      line != [] && line[|line| - 1] == cells[|cells| - 1][|cells[|cells| - 1]| - 1]
    decreases |cells|
  {
    if |cells| > 1 {
      var rest := cells[1..];
      JoinLast(rest);
      assert JoinCommas(cells) == cells[0] + "," + JoinCommas(rest);
    }
  }

  // Replay

  /** The tool's counters: ADD records handed to the engine, successful cancels, trades and traded quantity. */
  datatype Metrics = Metrics(ordersAdd: nat, ordersCancel: nat, trades: nat, tradedQty: int)

  const NoMetrics := Metrics(0, 0, 0, 0)

  /** The engine configuration the tool replays with: GTC market orders as IOC, no level limit. */
  const ReplayConfig := EngineConfig(true, 0)

  /**
   * How a replay ends: all lines read (then the book's snapshot at the
   * requested depth is printed), a first record that is not the header
   * (exit code 3), or the termination of the program on a number that
   * does not convert.
   */
  datatype ReplayOutcome = Finished(state: EngineState, metrics: Metrics, snapshot: Snapshot) | BadHeader | Terminated

  /** The effect of one line: the state to go on with, or the end of the replay. */
  datatype LineOutcome = Continue(engine: EngineState, metrics: Metrics, expectHeader: bool) | Stop(outcome: ReplayOutcome)

  /** The counters after a batch of trades: one per trade, and their quantities. */
  function AddTrades(m: Metrics, trades: seq<Trade>): Metrics
  {
    m.(trades := m.trades + |trades|, tradedQty := m.tradedQty + SumTrades(trades))
  }

  /** An order command handed to the engine and counted with its trades. */
  function AddCommandOutcome(st: EngineState, m: Metrics, cmd: OrderCmd): (o: LineOutcome)
    requires BookValid(st.book)
    ensures o.Continue? && BookValid(o.engine.book) && !o.expectHeader
  {
    AddOrderKeepsBookValid(ReplayConfig, st, cmd);
    var step := AddOrderSpec(ReplayConfig, st, cmd);
    Continue(step.0, AddTrades(m.(ordersAdd := m.ordersAdd + 1), step.1.trades), false)
  }

  /** An ADD record of at least seven cells: decoded, then added. */
  function AddRecordOutcome(st: EngineState, m: Metrics, cells: seq<string>): (o: LineOutcome)
    requires BookValid(st.book) && |cells| >= 7
    ensures o.Continue? ==> BookValid(o.engine.book) && !o.expectHeader
    ensures o.Stop? <==> DecodeAdd(cells).None?
    ensures o.Stop? ==> o.outcome == Terminated
  {
    match DecodeAdd(cells)
    case None => Stop(Terminated)
    case Some(cmd) => AddCommandOutcome(st, m, cmd)
  }

  /** A CANCEL record: its last cell is the id; an empty one skips the record. */
  function CancelRecordOutcome(st: EngineState, m: Metrics, cells: seq<string>): (o: LineOutcome)
    requires BookValid(st.book) && |cells| >= 1
    ensures o.Continue? ==> BookValid(o.engine.book) && !o.expectHeader
    ensures o.Stop? <==> cells[|cells| - 1] != "" && Stoull(cells[|cells| - 1]).None?
    ensures o.Stop? ==> o.outcome == Terminated
    ensures cells[|cells| - 1] == "" ==> o == Continue(st, m, false)
    ensures o.Continue? && cells[|cells| - 1] != "" ==>
      var (book, ok) := Cancel(st.book, Stoull(cells[|cells| - 1]).value);
      && o.engine == st.(book := book)
      && o.metrics == m.(ordersCancel := m.ordersCancel + (if ok then 1 else 0))
  {
    var idText := cells[|cells| - 1];
    if idText == "" then Continue(st, m, false)
    else match Stoull(idText)
      case None => Stop(Terminated)
      case Some(id) =>
        CancelKeepsBookValid(st.book, id);
        var (book, ok) := Cancel(st.book, id);
        Continue(st.(book := book), if ok then m.(ordersCancel := m.ordersCancel + 1) else m, false)
  }

  /** A record after the header that the tool warns about and skips: too few cells, or an unknown command. */
  predicate SkippedRecord(cells: seq<string>)
  {
    || |cells| < 3
    || (Ieq(cells[1], "ADD") && |cells| < 7)
    || (!Ieq(cells[1], "ADD") && !Ieq(cells[1], "CANCEL"))
  }

  /** A CANCEL record whose id converts and names an order the book removes. */
  predicate CancelSucceeds(b: BookState, cells: seq<string>)
  {
    && cells != []
    && cells[|cells| - 1] != ""
    && Stoull(cells[|cells| - 1]).Some?
    && Cancel(b, Stoull(cells[|cells| - 1]).value).1
  }

  /** A line that is neither blank nor a comment once trimmed. */
  predicate Meaningful(raw: string)
  {
    var line := Trim(raw);
    line != [] && line[0] != '#'
  }

  /** The header record: its first cell reads "timestamp" in any case. */
  predicate IsHeader(raw: string)
  {
    var cells := SplitCsvLine(Trim(raw));
    cells != [] && Ieq(cells[0], "timestamp")
  }

  /** An ADD record the tool hands to the engine: seven cells or more, "ADD" in any case in the second. */
  predicate IsAddRecord(raw: string)
  {
    var cells := SplitCsvLine(Trim(raw));
    |cells| >= 7 && Ieq(cells[1], "ADD")
  }

  /** A CANCEL record: three cells or more, "CANCEL" in any case in the second. */
  predicate IsCancelRecord(raw: string)
  {
    var cells := SplitCsvLine(Trim(raw));
    |cells| >= 3 && Ieq(cells[1], "CANCEL")
  }

  /**
   * The cells of a line that is not blank or a comment: the first such
   * line must be the header; after it, lines of fewer than three cells,
   * ADD records of fewer than seven and lines of other commands are
   * skipped.
   */
  function RecordOutcome(st: EngineState, m: Metrics, expectHeader: bool, cells: seq<string>): (o: LineOutcome)
    requires BookValid(st.book)
    ensures o.Continue? ==> BookValid(o.engine.book) && !o.expectHeader
    ensures o.Stop? ==> !o.outcome.Finished? && (o.outcome == BadHeader <==> expectHeader)
    ensures expectHeader ==> (o.Continue? <==> cells != [] && Ieq(cells[0], "timestamp"))
    ensures expectHeader && o.Continue? ==> o.engine == st && o.metrics == m
    ensures !expectHeader && SkippedRecord(cells) ==> o == Continue(st, m, false)
  {
    if expectHeader then
      if cells != [] && Ieq(cells[0], "timestamp") then Continue(st, m, false) else Stop(BadHeader)
    else if |cells| < 3 then Continue(st, m, false)
    else if Ieq(cells[1], "ADD") then
      if |cells| < 7 then Continue(st, m, false) else AddRecordOutcome(st, m, cells)
    else if Ieq(cells[1], "CANCEL") then CancelRecordOutcome(st, m, cells)
    else Continue(st, m, false)
  }

  /** One line of the replay: blank and comment lines are skipped, the others split into cells. */
  function ReplayLine(st: EngineState, m: Metrics, expectHeader: bool, raw: string): (o: LineOutcome)
    requires BookValid(st.book)
    ensures o.Continue? ==> BookValid(o.engine.book)
    ensures o.Stop? ==> !o.outcome.Finished?
    ensures o.Continue? && Meaningful(raw) ==> !o.expectHeader
  {
    if !Meaningful(raw) then Continue(st, m, expectHeader)
    else RecordOutcome(st, m, expectHeader, SplitCsvLine(Trim(raw)))
  }

  /** The replay of `lines` from a given engine state, counters and header expectation. */
  function ReplayFrom(st: EngineState, m: Metrics, expectHeader: bool, lines: seq<string>, depth: int): ReplayOutcome
    requires BookValid(st.book)
    decreases |lines|
  {
    if lines == [] then Finished(st, m, SnapshotOf(st.book, depth))
    else
      match ReplayLine(st, m, expectHeader, lines[0])
      case Stop(o) => o
      case Continue(st', m', h') => ReplayFrom(st', m', h', lines[1..], depth)
  }

  /** The replay of a whole file against a fresh engine. */
  function ReplaySpec(lines: seq<string>, depth: int): ReplayOutcome
  {
    assert BookValid(InitialState.book);
    ReplayFrom(InitialState, NoMetrics, true, lines, depth)
  }

  /** The trade loop of an ADD record: counts each trade and adds up its quantity. */
  method CountTrades(m: Metrics, trades: seq<Trade>) returns (m': Metrics)
    ensures m' == AddTrades(m, trades)
  {
    m' := m;
    for i := 0 to |trades|
      invariant m' == AddTrades(m, trades[..i])
    {
      assert trades[..i + 1] == trades[..i] + [trades[i]];
      SumTradesAppend(trades[..i], [trades[i]]);
      assert [trades[i]][1..] == [];
      m' := m'.(trades := m'.trades + 1, tradedQty := m'.tradedQty + trades[i].qty);
    }
    assert trades[..|trades|] == trades;
  }

  /** An order command handed to the engine object, and its trades counted. */
  method ReplayAdd(engine: EngineSingleThreaded, m: Metrics, cmd: OrderCmd) returns (m': Metrics)
    requires engine.Valid() && engine.config == ReplayConfig
    modifies engine, engine.ob
    ensures engine.Valid()
    ensures AddCommandOutcome(old(engine.State()), m, cmd) == Continue(engine.State(), m', false)
  {
    var r := engine.AddOrder(cmd);
    m' := CountTrades(m.(ordersAdd := m.ordersAdd + 1), r.trades);
  }

  /** A CANCEL record handed to the engine object. */
  method ReplayCancel(engine: EngineSingleThreaded, m: Metrics, cells: seq<string>) returns (m': Metrics, ok: bool)
    requires engine.Valid() && |cells| >= 1
    modifies engine.ob
    ensures engine.Valid()
    ensures CancelRecordOutcome(old(engine.State()), m, cells)
      == if ok then Continue(engine.State(), m', false) else Stop(Terminated)
  {
    var idText := cells[|cells| - 1];
    if idText == "" {
      return m, true;
    }
    var id := Stoull(idText);
    if id.None? {
      return m, false;
    }
    var cancelled := engine.CancelOrder(id.value);
    m' := if cancelled then m.(ordersCancel := m.ordersCancel + 1) else m;
    ok := true;
  }

  /** The body of the replay loop for one line. */
  method ReplayStep(engine: EngineSingleThreaded, m: Metrics, expectHeader: bool, raw: string)
    returns (m': Metrics, expectHeader': bool, stop: Option<ReplayOutcome>)
    requires engine.Valid() && engine.config == ReplayConfig
    modifies engine, engine.ob
    ensures engine.Valid()
    ensures ReplayLine(old(engine.State()), m, expectHeader, raw)
      == if stop.Some? then Stop(stop.value) else Continue(engine.State(), m', expectHeader')
  {
    var line := Trim(raw);
    if line == [] || line[0] == '#' {
      return m, expectHeader, None;
    }
    var cells := SplitCsvLine(line);
    m', expectHeader', stop := RecordStep(engine, m, expectHeader, cells);
  }

  /** The replay loop's handling of the cells of a line that is not blank or a comment. */
  method RecordStep(engine: EngineSingleThreaded, m: Metrics, expectHeader: bool, cells: seq<string>)
    returns (m': Metrics, expectHeader': bool, stop: Option<ReplayOutcome>)
    requires engine.Valid() && engine.config == ReplayConfig
    modifies engine, engine.ob
    ensures engine.Valid()
    ensures RecordOutcome(old(engine.State()), m, expectHeader, cells)
      == if stop.Some? then Stop(stop.value) else Continue(engine.State(), m', expectHeader')
  {
    m', expectHeader', stop := m, false, None;
    if expectHeader {
      if !(cells != [] && Ieq(cells[0], "timestamp")) {
        stop := Some(BadHeader);
      }
      return;
    }
    if |cells| < 3 {
      return;
    }
    if Ieq(cells[1], "ADD") {
      if |cells| < 7 {
        return;
      }
      var cmd := DecodeAdd(cells);
      if cmd.None? {
        stop := Some(Terminated);
        return;
      }
      m' := ReplayAdd(engine, m, cmd.value);
    } else if Ieq(cells[1], "CANCEL") {
      var ok;
      m', ok := ReplayCancel(engine, m, cells);
      if !ok {
        stop := Some(Terminated);
      }
    }
  }

  /**
   * The replay loop of the tool: a fresh engine with the replay
   * configuration, every line in turn, then the snapshot at `depth`.
   */
  method Replay(lines: seq<string>, depth: int) returns (outcome: ReplayOutcome)
    ensures outcome == ReplaySpec(lines, depth)
  {
    var engine := new EngineSingleThreaded(ReplayConfig);
    var metric := NoMetrics;
    var firstLine := true;
    for i := 0 to |lines|
      invariant fresh(engine) && fresh(engine.ob)
      invariant engine.Valid() && engine.config == ReplayConfig
      invariant ReplayFrom(engine.State(), metric, firstLine, lines[i..], depth) == ReplaySpec(lines, depth)
    {
      assert lines[i..][1..] == lines[i + 1..];
      var stop;
      metric, firstLine, stop := ReplayStep(engine, metric, firstLine, lines[i]);
      if stop.Some? {
        return stop.value;
      }
    }
    var snap := engine.Snapshot(depth);
    outcome := Finished(engine.State(), metric, snap);
  }

  // Properties of the replay

  /** The lines that are neither blank nor comments. */
  function Records(lines: seq<string>): (r: seq<string>)
    ensures |r| <= |lines|
    ensures forall k :: 0 <= k < |r| ==> Meaningful(r[k])
  {
    if lines == [] then []
    else if Meaningful(lines[0]) then [lines[0]] + Records(lines[1..])
    else Records(lines[1..])
  }

  /** Blank and comment lines, wherever they are, change nothing. */
  lemma {:induction false} ReplayOnlyRecords(st: EngineState, m: Metrics, h: bool, lines: seq<string>, depth: int)
    requires BookValid(st.book)
    ensures ReplayFrom(st, m, h, lines, depth) == ReplayFrom(st, m, h, Records(lines), depth)
    decreases |lines|
  {
    if lines != [] {
      if Meaningful(lines[0]) {
        var rs := [lines[0]] + Records(lines[1..]);
        assert rs[0] == lines[0] && rs[1..] == Records(lines[1..]);
        match ReplayLine(st, m, h, lines[0])
        case Stop(_) =>
        case Continue(st', m', h') =>
          ReplayOnlyRecords(st', m', h', lines[1..], depth);
      } else {
        ReplayOnlyRecords(st, m, h, lines[1..], depth);
      }
    }
  }

  /** A file whose first record is not the header ends the replay with exit code 3. */
  lemma ReplayNeedsHeader(lines: seq<string>, depth: int)
    requires Records(lines) != [] && !IsHeader(Records(lines)[0])
    ensures ReplaySpec(lines, depth) == BadHeader
  {
    assert BookValid(InitialState.book);
    ReplayOnlyRecords(InitialState, NoMetrics, true, lines, depth);
  }

  /** How many ADD records after the header: the number of orders the tool hands to the engine. */
  function AddRecordCount(expectHeader: bool, lines: seq<string>): nat
    decreases |lines|
  {
    if lines == [] then 0
    else if !Meaningful(lines[0]) then AddRecordCount(expectHeader, lines[1..])
    else (if !expectHeader && IsAddRecord(lines[0]) then 1 else 0) + AddRecordCount(false, lines[1..])
  }

  /** How many CANCEL records after the header. */
  function CancelRecordCount(expectHeader: bool, lines: seq<string>): nat
    decreases |lines|
  {
    if lines == [] then 0
    else if !Meaningful(lines[0]) then CancelRecordCount(expectHeader, lines[1..])
    else (if !expectHeader && IsCancelRecord(lines[0]) then 1 else 0) + CancelRecordCount(false, lines[1..])
  }

  /**
   * The counters of a replay that reads every line: one ADD per ADD
   * record, at most one cancel per CANCEL record, and, every trade having
   * a positive quantity, a traded quantity of at least the number of
   * trades.
   */
  lemma {:induction false} ReplayCounters(st: EngineState, m: Metrics, h: bool, lines: seq<string>, depth: int)
    requires BookValid(st.book)
    ensures var o := ReplayFrom(st, m, h, lines, depth);
      o.Finished? ==>
        && o.metrics.ordersAdd == m.ordersAdd + AddRecordCount(h, lines)
        && o.metrics.ordersCancel <= m.ordersCancel + CancelRecordCount(h, lines)
        && o.metrics.tradedQty - m.tradedQty >= o.metrics.trades - m.trades
    decreases |lines|
  {
    if lines != [] {
      var line := ReplayLine(st, m, h, lines[0]);
      ReplayFromStep(st, m, h, lines, depth);
      if line.Continue? {
        LineCounters(st, m, h, lines[0]);
        CountsStep(h, lines);
        ReplayCounters(line.engine, line.metrics, line.expectHeader, lines[1..], depth);
      }
    }
  }

  /** A replay goes on from the state its first line leaves, or ends short of finishing. */
  lemma ReplayFromStep(st: EngineState, m: Metrics, h: bool, lines: seq<string>, depth: int)
    requires BookValid(st.book) && lines != []
    ensures var line := ReplayLine(st, m, h, lines[0]);
      && (line.Stop? ==> !ReplayFrom(st, m, h, lines, depth).Finished?)
      && (line.Continue? ==>
            ReplayFrom(st, m, h, lines, depth)
              == ReplayFrom(line.engine, line.metrics, line.expectHeader, lines[1..], depth))
  {
  }

  /** The record counts split off their first line. */
  lemma CountsStep(h: bool, lines: seq<string>)
    requires lines != []
    ensures var first := Meaningful(lines[0]) && !h;
      && AddRecordCount(h, lines)
        == (if first && IsAddRecord(lines[0]) then 1 else 0) + AddRecordCount(h && !Meaningful(lines[0]), lines[1..])
      && CancelRecordCount(h, lines)
        == (if first && IsCancelRecord(lines[0]) then 1 else 0) + CancelRecordCount(h && !Meaningful(lines[0]), lines[1..])
  {
  }

  /**
   * What one line adds to the counters: one ADD per ADD record after the
   * header, one cancel per CANCEL record whose cancel succeeds, and the
   * order's trades and their quantities; every other line adds nothing.
   */
  lemma LineCounters(st: EngineState, m: Metrics, h: bool, raw: string)
    requires BookValid(st.book)
    ensures var o := ReplayLine(st, m, h, raw);
      var cells := SplitCsvLine(Trim(raw));
      var isAdd := Meaningful(raw) && !h && IsAddRecord(raw);
      var isCancel := Meaningful(raw) && !h && IsCancelRecord(raw);
      o.Continue? ==>
        && o.expectHeader == (h && !Meaningful(raw))
        && o.metrics.ordersAdd == m.ordersAdd + (if isAdd then 1 else 0)
        && o.metrics.ordersCancel == m.ordersCancel + (if isCancel && CancelSucceeds(st.book, cells) then 1 else 0)
        && (isAdd ==>
              && DecodeAdd(cells).Some?
              && var trades := AddOrderSpec(ReplayConfig, st, DecodeAdd(cells).value).1.trades;
              && o.metrics.trades == m.trades + |trades|
              && o.metrics.tradedQty == m.tradedQty + SumTrades(trades))
        && (!isAdd ==> o.metrics.trades == m.trades && o.metrics.tradedQty == m.tradedQty)
        && o.metrics.tradedQty - m.tradedQty >= o.metrics.trades - m.trades
  {
    if Meaningful(raw) {
      RecordCounters(st, m, h, SplitCsvLine(Trim(raw)));
    }
  }

  /** What the cells of one record add to the counters. */
  lemma RecordCounters(st: EngineState, m: Metrics, h: bool, cells: seq<string>)
    requires BookValid(st.book)
    ensures var o := RecordOutcome(st, m, h, cells);
      var isAdd := !h && |cells| >= 7 && Ieq(cells[1], "ADD");
      var isCancel := !h && |cells| >= 3 && Ieq(cells[1], "CANCEL");
      o.Continue? ==>
        && o.metrics.ordersAdd == m.ordersAdd + (if isAdd then 1 else 0)
        && o.metrics.ordersCancel == m.ordersCancel + (if isCancel && CancelSucceeds(st.book, cells) then 1 else 0)
        && (isAdd ==>
              && DecodeAdd(cells).Some?
              && var trades := AddOrderSpec(ReplayConfig, st, DecodeAdd(cells).value).1.trades;
              && o.metrics.trades == m.trades + |trades|
              && o.metrics.tradedQty == m.tradedQty + SumTrades(trades))
        && (!isAdd ==> o.metrics.trades == m.trades && o.metrics.tradedQty == m.tradedQty)
        && o.metrics.tradedQty - m.tradedQty >= o.metrics.trades - m.trades
  {
    if !h && |cells| >= 7 && Ieq(cells[1], "ADD") {
      match DecodeAdd(cells)
      case None =>
      case Some(cmd) => AddTradesCount(ReplayConfig, st, cmd);
    }
  }

  /** The trades of one order add at least their number to the traded quantity. */
  lemma AddTradesCount(cfg: EngineConfig, st: EngineState, cmd: OrderCmd)
    requires BookValid(st.book)
    ensures var r := AddOrderSpec(cfg, st, cmd).1;
      SumTrades(r.trades) >= |r.trades|
  {
    var r := AddOrderSpec(cfg, st, cmd).1;
    if cmd.qty > 0 {
      AddOrderFills(cfg, st, cmd);
      PositiveTradesSum(r.orderId, st.seqNo + 1, r.trades);
    }
  }

  /** Trades of positive quantity sum to at least their number. */
  lemma {:induction false} PositiveTradesSum(takerId: nat, ts: nat, trades: seq<Trade>)
    requires TakerTrades(takerId, ts, trades)
    ensures SumTrades(trades) >= |trades|
  {
    if trades != [] {
      PositiveTradesSum(takerId, ts, trades[1..]);
    }
  }

  /**
   * The counters of the whole replay: `orders_add` is the number of ADD
   * records, `orders_cancel` at most the number of CANCEL records, and the
   * traded quantity at least the number of trades.
   */
  lemma ReplayMetrics(lines: seq<string>, depth: int)
    ensures var o := ReplaySpec(lines, depth);
      o.Finished? ==>
        && o.metrics.ordersAdd == AddRecordCount(true, lines)
        && o.metrics.ordersCancel <= CancelRecordCount(true, lines)
        && o.metrics.trades <= o.metrics.tradedQty
  {
    assert BookValid(InitialState.book);
    ReplayCounters(InitialState, NoMetrics, true, lines, depth);
  }

  /** The command cell of an ADD record reads "ADD". */
  lemma AddRecordNamesAdd(ts: string, c: OrderCmd)
    ensures Ieq(AddRecord(ts, c)[1], "ADD")
  {
    assert AddRecord(ts, c)[1] == "ADD";
    IeqEquivalence("ADD", "ADD", "ADD");
  }

  /**
   * After the header, the line of an ADD record for a command adds that
   * command to the engine and counts it with its trades.
   */
  lemma ReplayAddLine(st: EngineState, m: Metrics, ts: string, c: OrderCmd)
    requires BookValid(st.book) && PlainCell(ts) && Recordable(c)
    ensures ReplayLine(st, m, false, AddLine(ts, c)) == AddCommandOutcome(st, m, c)
  {
    var cells := AddRecord(ts, c);
    AddLineReads(ts, c);
    assert ReplayLine(st, m, false, AddLine(ts, c)) == RecordOutcome(st, m, false, cells);
    assert RecordOutcome(st, m, false, cells) == AddRecordOutcome(st, m, cells);
  }

  /** The line of an ADD record is a meaningful line that splits into that record, decoding to its command. */
  lemma AddLineReads(ts: string, c: OrderCmd)
    requires PlainCell(ts) && Recordable(c)
    ensures var cells := AddRecord(ts, c);
      && Meaningful(AddLine(ts, c))
      && SplitCsvLine(Trim(AddLine(ts, c))) == cells
      && Ieq(cells[1], "ADD")
      && DecodeAdd(cells) == Some(c)
  {
    var line := AddLine(ts, c);
    var cells := AddRecord(ts, c);
    AddLineCells(ts, c);
    JoinFirst(cells);
    assert line[0] == ts[0];
    DecodeAddRecord(ts, c);
    AddRecordNamesAdd(ts, c);
  }
  /** The cells of a CANCEL record: timestamp text, "CANCEL", and the order id in decimal. */
  function CancelRecord(ts: string, id: nat): (cells: seq<string>)
    ensures |cells| == 3
  {
    [ts, "CANCEL", DecimalString(id)]
  }

  function CancelLine(ts: string, id: nat): string
  {
    JoinCommas(CancelRecord(ts, id))
  }

  /** The line of a CANCEL record is a meaningful line that splits into that record, naming CANCEL and the id. */
  lemma CancelLineReads(ts: string, id: nat)
    requires PlainCell(ts) && id < 0x1_0000_0000_0000_0000
    ensures var cells := CancelRecord(ts, id);
      && Meaningful(CancelLine(ts, id))
      && SplitCsvLine(Trim(CancelLine(ts, id))) == cells
      && Ieq(cells[1], "CANCEL") && !Ieq(cells[1], "ADD")
      && Stoull(cells[2]) == Some(id)
  {
    var cells := CancelRecord(ts, id);
    var line := CancelLine(ts, id);
    DecimalCellPlain(id);
    assert cells[2] == SignedDecimal(id);
    assert cells[1][0] == 'C' && cells[1][5] == 'L';
    assert forall i :: 0 <= i < |cells| ==> ',' !in cells[i] && NoSurroundingSpace(cells[i]);
    assert NoSurroundingSpace(cells[2]);
    JoinedTrimmed(cells);
    SplitJoin(cells);
    JoinFirst(cells);
    assert line[0] == ts[0];
    StoullOfDecimal(id);
    IeqEquivalence("CANCEL", "CANCEL", "CANCEL");
  }

  /**
   * After the header, the line of a CANCEL record cancels that id: the book
   * becomes the one cancel leaves, and `orders_cancel` rises exactly when
   * the cancel succeeds.
   */
  lemma ReplayCancelLine(st: EngineState, m: Metrics, ts: string, id: nat)
    requires BookValid(st.book) && PlainCell(ts) && id < 0x1_0000_0000_0000_0000
    ensures var (book, ok) := Cancel(st.book, id);
      ReplayLine(st, m, false, CancelLine(ts, id))
        == Continue(st.(book := book), m.(ordersCancel := m.ordersCancel + (if ok then 1 else 0)), false)
  {
    var cells := CancelRecord(ts, id);
    CancelLineReads(ts, id);
    assert cells[2] == DecimalString(id) && Stoull(cells[2]) == Some(id);
    assert ReplayLine(st, m, false, CancelLine(ts, id)) == RecordOutcome(st, m, false, cells) by {
      assert Meaningful(CancelLine(ts, id)) && SplitCsvLine(Trim(CancelLine(ts, id))) == cells;
    }
    CancelCellsCancel(st, m, cells, id);
  }

  /** The cells of a CANCEL record after the header, with an id that converts, cancel that id. */
  lemma CancelCellsCancel(st: EngineState, m: Metrics, cells: seq<string>, id: nat)
    requires BookValid(st.book) && |cells| >= 3
    requires Ieq(cells[1], "CANCEL") && !Ieq(cells[1], "ADD")
    requires cells[|cells| - 1] != "" && Stoull(cells[|cells| - 1]) == Some(id)
    ensures var (book, ok) := Cancel(st.book, id);
      RecordOutcome(st, m, false, cells)
        == Continue(st.(book := book), m.(ordersCancel := m.ordersCancel + (if ok then 1 else 0)), false)
  {
    assert RecordOutcome(st, m, false, cells) == CancelRecordOutcome(st, m, cells);
  }
}
