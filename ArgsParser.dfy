/** The command-line parser: the first argument is the source directory,
    the rest are read left to right with a register `prevArg` holding the
    last accepted argument. `-m`, `-d`, `-s` and `-r` switch modes; any other
    argument is a value, accepted as the destination directory right after
    `-m`, as the export file right after `-s`, and a parse failure anywhere
    else. */
module Parsing {
  import opened JavaLang

  /** The four mode switches. */
  datatype Modes = Modes(recMode: bool, delMode: bool, moveMode: bool, saveMode: bool)

  /** The two values a flag can introduce, and whether each was given. */
  datatype Values = Values(destDir: string, destDirDecl: bool, expFile: string, expFileDecl: bool)

  /** The parser's fields (the loop index stands for `pointer`). */
  datatype ParserState = ParserState(
    srcDir: string, values: Values, modes: Modes, prevArg: string, parseOK: bool)

  /** The fields as the constructor first sets them: recursive on, every
      other mode off, no directories or files declared. */
  const Initial := ParserState("", Values("", false, "", false), Modes(true, false, false, false), "", false)

  predicate IsFlag(a: string)
  {
    a == "-m" || a == "-d" || a == "-s" || a == "-r"
  }

  /** One frame of `recArgs`: the switch on the head argument. */
  function Step(st: ParserState, a: string): ParserState
  {
    if a == "-m" then st.(modes := st.modes.(moveMode := true), prevArg := "-m")
    else if a == "-d" then st.(modes := st.modes.(delMode := true), prevArg := "-d")
    else if a == "-s" then st.(modes := st.modes.(saveMode := true), prevArg := "-s")
    else if a == "-r" then st.(modes := st.modes.(recMode := false), prevArg := "-r")
    else if st.prevArg == "-m" then st.(values := st.values.(destDir := a, destDirDecl := true), prevArg := a)
    else if st.prevArg == "-s" then st.(values := st.values.(expFile := a, expFileDecl := true), prevArg := a)
    else st.(parseOK := false)
  }

  /** `recArgs(args)`: the steps applied left to right. */
  function Fold(st: ParserState, args: seq<string>): ParserState
  {
    if |args| == 0 then st else Step(Fold(st, args[..|args| - 1]), args[|args| - 1])
  }

  /** The constructor: the state after `new ArgsParser(args)`, where
      `pathExists` answers `IO.exists` and `defaultDir` is what
      `IO.mkDefaultDir()` returns. */
  function Parse(args: seq<string>, pathExists: string -> bool, defaultDir: string): ParserState
  {
    if |args| == 0 then Initial.(parseOK := false)
    else
      var st := Initial.(srcDir := args[0], prevArg := args[0]);
      if !pathExists(args[0]) then st.(parseOK := false)
      else if |args| == 1 then st.(parseOK := true)
      else
        Settle(Fold(st.(parseOK := true), args[1..]), defaultDir)
  }

  /** What the constructor does after `recArgs`: move mode overrides
      delete mode, and a move without `-m <dir>` goes to `defaultDir`. */
  function Settle(f: ParserState, defaultDir: string): ParserState
  {
    var g := if f.modes.moveMode && f.modes.delMode then f.(modes := f.modes.(delMode := false)) else f;
    if g.modes.moveMode && !g.values.destDirDecl then g.(values := g.values.(destDir := defaultDir)) else g
  }

  /** `getExpFile()`; `date` stands for the formatted current time. */
  function ExpFileOf(st: ParserState, sep: string, date: string): string
  {
    if st.modes.saveMode then
      if st.values.expFileDecl then st.values.expFile
      else st.srcDir + sep + "duplix-" + date + ".txt"
    else ""
  }

  // -----------------------------------------------------------------------
  // Reference descriptions written over the raw argument list.

  /** The argument read just before `args[i]`; before the first, `prev`
      (the source directory). */
  function Before(prev: string, args: seq<string>, i: nat): string
    requires i < |args|
  {
    if i == 0 then prev else args[i - 1]
  }

  /** Every value directly follows `-m` or `-s`. */
  predicate ValuesAccepted(prev: string, args: seq<string>)
  {
    forall i :: 0 <= i < |args| && !IsFlag(args[i]) ==>
      Before(prev, args, i) == "-m" || Before(prev, args, i) == "-s"
  }

  /** The last value that directly follows `flag`, if any. */
  function LastValueAfter(prev: string, args: seq<string>, flag: string): Option<string>
  {
    if |args| == 0 then None
    else
      var n := |args| - 1;
      if !IsFlag(args[n]) && Before(prev, args, n) == flag then Some(args[n])
      else LastValueAfter(prev, args[..n], flag)
  }

  function ValueOr(v: Option<string>, default: string): string
  {
    if v.Some? then v.value else default
  }

  // -----------------------------------------------------------------------
  // Facts about the fold.

  /** `prevArg` is `-m` (or `-s`) exactly when the argument just read was. */
  lemma StepPrev(st: ParserState, a: string)
    ensures Step(st, a).prevArg == "-m" <==> a == "-m"
    ensures Step(st, a).prevArg == "-s" <==> a == "-s"
  {
  }

  lemma FoldPrev(st: ParserState, args: seq<string>, i: nat)
    requires i < |args|
    ensures Fold(st, args[..i]).prevArg == "-m" <==> Before(st.prevArg, args, i) == "-m"
    ensures Fold(st, args[..i]).prevArg == "-s" <==> Before(st.prevArg, args, i) == "-s"
  {
    if i > 0 {
      assert args[..i][..i - 1] == args[..i - 1];
      StepPrev(Fold(st, args[..i - 1]), args[i - 1]);
    }
  }

  /** Each flag switches its mode once and for all; repeating it changes
      nothing, and values never touch a mode. */
  lemma {:induction false} FoldModes(st: ParserState, args: seq<string>)
    ensures var m := Fold(st, args).modes;
      m.moveMode == (st.modes.moveMode || "-m" in args) &&
      m.delMode == (st.modes.delMode || "-d" in args) &&
      m.saveMode == (st.modes.saveMode || "-s" in args) &&
      m.recMode == (st.modes.recMode && "-r" !in args)
    ensures Fold(st, args).srcDir == st.srcDir
  {
    if |args| > 0 {
      var init, last := args[..|args| - 1], args[|args| - 1];
      FoldModes(st, init);
      StepModes(Fold(st, init), last);
      assert args == init + [last];
      assert forall x :: x in args <==> x in init || x == last;
    }
  }

  lemma StepModes(st: ParserState, a: string)
    ensures var m := Step(st, a).modes;
      m.moveMode == (st.modes.moveMode || a == "-m") &&
      m.delMode == (st.modes.delMode || a == "-d") &&
      m.saveMode == (st.modes.saveMode || a == "-s") &&
      m.recMode == (st.modes.recMode && a != "-r")
    ensures Step(st, a).srcDir == st.srcDir
  {
  }

  /** A value that does not follow `-m` or `-s` clears parseOK; nothing sets it. */
  lemma StepParseOK(st: ParserState, a: string)
    ensures Step(st, a).parseOK == (st.parseOK && (IsFlag(a) || st.prevArg == "-m" || st.prevArg == "-s"))
  {
  }

  lemma ValuesAcceptedSnoc(prev: string, args: seq<string>)
    requires |args| > 0
    ensures var n := |args| - 1;
      ValuesAccepted(prev, args) <==>
        ValuesAccepted(prev, args[..n]) &&
        (IsFlag(args[n]) || Before(prev, args, n) == "-m" || Before(prev, args, n) == "-s")
  {
    var n := |args| - 1;
    var init := args[..n];
    forall i | 0 <= i < n
      ensures init[i] == args[i] && Before(prev, init, i) == Before(prev, args, i)
    {
    }
  }

  /** parseOK survives exactly when it was true before and every value
      directly follows `-m` or `-s`: once false it stays false. */
  lemma {:induction false} FoldParseOK(st: ParserState, args: seq<string>)
    ensures Fold(st, args).parseOK == (st.parseOK && ValuesAccepted(st.prevArg, args))
  {
    if |args| > 0 {
      var n := |args| - 1;
      FoldParseOK(st, args[..n]);
      FoldPrev(st, args, n);
      StepParseOK(Fold(st, args[..n]), args[n]);
      ValuesAcceptedSnoc(st.prevArg, args);
    }
  }

  /** The destination directory is the last value read right after `-m`
      (later ones overwrite earlier ones), and the export file the last
      value read right after `-s`. */
  lemma {:induction false} FoldValues(st: ParserState, args: seq<string>)
    ensures var v := Fold(st, args).values;
      v.destDir == ValueOr(LastValueAfter(st.prevArg, args, "-m"), st.values.destDir) &&
      v.destDirDecl == (st.values.destDirDecl || LastValueAfter(st.prevArg, args, "-m").Some?) &&
      v.expFile == ValueOr(LastValueAfter(st.prevArg, args, "-s"), st.values.expFile) &&
      v.expFileDecl == (st.values.expFileDecl || LastValueAfter(st.prevArg, args, "-s").Some?)
  {
    if |args| > 0 {
      var n := |args| - 1;
      FoldValues(st, args[..n]);
      FoldPrev(st, args, n);
      StepValues(Fold(st, args[..n]), args[n]);
    }
  }

  lemma StepValues(st: ParserState, a: string)
    ensures Step(st, a).values ==
      if IsFlag(a) then st.values
      else if st.prevArg == "-m" then st.values.(destDir := a, destDirDecl := true)
      else if st.prevArg == "-s" then st.values.(expFile := a, expFileDecl := true)
      else st.values
  {
  }

  // -----------------------------------------------------------------------
  // What the constructor promises.

  /** The parse succeeds exactly when there is a first argument, it names
      an existing location, and every later value directly follows `-m` or
      `-s` (the source directory itself counting as the argument before the
      first). In particular no arguments, or a missing source, fail. */
  lemma ParseOK(args: seq<string>, pathExists: string -> bool, defaultDir: string)
    ensures Parse(args, pathExists, defaultDir).parseOK <==>
      |args| > 0 && pathExists(args[0]) && ValuesAccepted(args[0], args[1..])
  {
    if |args| > 1 && pathExists(args[0]) {
      var st := Initial.(srcDir := args[0], prevArg := args[0], parseOK := true);
      FoldParseOK(st, args[1..]);
    }
  }

  /** Modes after construction: a flag anywhere after the source turns its
      mode on (`-r` turns recursion off), except that move mode suppresses
      delete mode; so move and delete are never both on. */
  lemma ParseModes(args: seq<string>, pathExists: string -> bool, defaultDir: string)
    ensures var r := Parse(args, pathExists, defaultDir);
      var on := |args| > 1 && pathExists(args[0]);
      r.modes.moveMode == (on && "-m" in args[1..]) &&
      r.modes.delMode == (on && "-d" in args[1..] && "-m" !in args[1..]) &&
      r.modes.saveMode == (on && "-s" in args[1..]) &&
      r.modes.recMode == !(on && "-r" in args[1..]) &&
      !(r.modes.moveMode && r.modes.delMode)
  {
    if |args| > 1 && pathExists(args[0]) {
      var st := Initial.(srcDir := args[0], prevArg := args[0], parseOK := true);
      FoldModes(st, args[1..]);
    }
  }

  /** The destination directory after construction: the last value that
      followed `-m`; failing that, the default directory when move mode is
      on, and the empty string otherwise. */
  lemma ParseDestDir(args: seq<string>, pathExists: string -> bool, defaultDir: string)
    requires |args| > 0 && pathExists(args[0])
    ensures var r := Parse(args, pathExists, defaultDir);
      var v := LastValueAfter(args[0], args[1..], "-m");
      r.values.destDirDecl == v.Some? &&
      r.values.destDir == ValueOr(v, if "-m" in args[1..] then defaultDir else "")
  {
    var st := Initial.(srcDir := args[0], prevArg := args[0], parseOK := true);
    FoldValues(st, args[1..]);
    FoldModes(st, args[1..]);
  }

  /** `getExpFile()` after construction: empty unless `-s` was given; then
      the last value that followed `-s`, or the time-stamped default in the
      source directory when none did. */
  lemma ParseExpFile(args: seq<string>, pathExists: string -> bool, defaultDir: string,
                     sep: string, date: string)
    requires |args| > 0 && pathExists(args[0])
    ensures var r := Parse(args, pathExists, defaultDir);
      ExpFileOf(r, sep, date) ==
        if "-s" !in args[1..] then ""
        else ValueOr(LastValueAfter(args[0], args[1..], "-s"),
                     args[0] + sep + "duplix-" + date + ".txt")
  {
    var st := Initial.(srcDir := args[0], prevArg := args[0], parseOK := true);
    FoldValues(st, args[1..]);
    FoldModes(st, args[1..]);
  }

  // -----------------------------------------------------------------------
  // The parser object.

  class ArgsParser {
    var srcDir: string
    var destDir: string
    var expFile: string
    var destDirDecl: bool
    var expFileDecl: bool
    var recMode: bool
    var delMode: bool
    var moveMode: bool
    var saveMode: bool
    var prevArg: string
    var parseOK: bool

    function State(): ParserState
      reads this
    {
      ParserState(srcDir, Values(destDir, destDirDecl, expFile, expFileDecl),
                  Modes(recMode, delMode, moveMode, saveMode), prevArg, parseOK)
    }

    /** `new ArgsParser(args)`. */
    constructor(args: seq<string>, pathExists: string -> bool, defaultDir: string)
      ensures State() == Parse(args, pathExists, defaultDir)
    {
      srcDir, destDir, expFile := "", "", "";
      destDirDecl, expFileDecl := false, false;
      recMode, delMode, moveMode, saveMode := true, false, false, false;
      prevArg, parseOK := "", false;
      new;
      if |args| > 0 {
        srcDir := args[0];
        prevArg := srcDir;
        if pathExists(srcDir) {
          parseOK := true;
          if |args| > 1 {
            RecArgs(args[1..]);
            SettleModes(defaultDir);
          }
        } else {
          parseOK := false;
        }
      } else {
        parseOK := false;
      }
    }

    /** The constructor's checks after `recArgs`. */
    method SettleModes(defaultDir: string)
      modifies this
      ensures State() == Settle(old(State()), defaultDir)
    {
      if moveMode {
        if delMode {
          delMode := false;
        }
        if !destDirDecl {
          destDir := defaultDir;
        }
      }
    }

    /** `recArgs(args)`: its recursion on the tail is a loop over the array. */
    method RecArgs(args: seq<string>)
      modifies this
      ensures State() == Fold(old(State()), args)
    {
      var i := 0;
      while i < |args|
        invariant 0 <= i <= |args|
        invariant State() == Fold(old(State()), args[..i])
      {
        Consume(args[i]);
        assert args[..i + 1][..i] == args[..i];
        i := i + 1;
      }
      assert args[..i] == args;
    }

    /** The switch of `recArgs` on the head argument. */
    method Consume(arg: string)
      modifies this
      ensures State() == Step(old(State()), arg)
    {
      if IsFlag(arg) {
        ConsumeFlag(arg);
      } else {
        ConsumeValue(arg);
      }
    }

    /** The four flag cases of the switch: the mode is set and remembered. */
    method ConsumeFlag(arg: string)
      requires IsFlag(arg)
      modifies this
      ensures State() == Step(old(State()), arg)
    {
      if arg == "-m" {
        moveMode := true;
      } else if arg == "-d" {
        delMode := true;
      } else if arg == "-s" {
        saveMode := true;
      } else {
        recMode := false;
      }
      prevArg := arg;
    }

    /** The default case of the switch: the value of the preceding `-m` or
        `-s`, or an argument that makes the parse fail. */
    method ConsumeValue(arg: string)
      requires !IsFlag(arg)
      modifies this
      ensures State() == Step(old(State()), arg)
    {
      if prevArg == "-m" {
        destDir := arg;
        prevArg := destDir;
        destDirDecl := true;
      } else if prevArg == "-s" {
        expFile := arg;
        prevArg := expFile;
        expFileDecl := true;
      } else {
        parseOK := false;
      }
    }

    function GetSrcDir(): string
      reads this
    {
      srcDir
    }

    /** `getDestDir()`; `dirExists` answers `IO.dirExists`. */
    function GetDestDir(dirExists: string -> bool): string
      reads this
    {
      if dirExists(destDir) then destDir else ""
    }

    /** `getExpFile()`. */
    function GetExpFile(sep: string, date: string): string
      reads this
    {
      ExpFileOf(State(), sep, date)
    }

    function RecursiveMode(): bool
      reads this
    {
      recMode
    }

    function SaveMode(): bool
      reads this
    {
      saveMode
    }

    function MoveMode(): bool
      reads this
    {
      moveMode
    }

    function DeleteMode(): bool
      reads this
    {
      delMode
    }
  }
}
