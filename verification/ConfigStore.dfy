/** Publishing and recovering the configuration file (config/config.go): a temporary file,
    the old file kept as the backup, two renames; any step may fail, and the program may
    die before any of them. */
module ConfigStore {

  type Config = nat

  /** Bad is a file that does not decode: empty, torn, or damaged. */
  datatype File = Missing | Bad | Good(config: Config)

  datatype Disk = Disk(main: File, bak: File, temp: File)

  datatype Luck = Ok | Fails | Dies

  /** How each step of a write will go. */
  datatype Fate = Fate(create: Luck, fill: Luck, stat: Luck, renameOld: Luck, renameNew: Luck, remove: Luck)

  datatype Outcome = Done | Failed | Dead

  // ---- Writing

  /** The temporary file is removed on the way out, if that works. */
  function CleanUp(d: Disk, fate: Fate, o: Outcome): (Disk, Outcome) {
    match fate.remove
    case Ok => (d.(temp := Missing), o)
    case Fails => (d, o)
    case Dies => (d, Dead)
  }

  function Publish(d: Disk, fate: Fate): (Disk, Outcome) {
    match fate.renameNew
    case Dies => (d, Dead)
    case Fails => CleanUp(d, fate, Failed)
    case Ok => CleanUp(d.(main := d.temp, temp := Missing), fate, Done)
  }

  function Rotate(d: Disk, fate: Fate): (Disk, Outcome) {
    match fate.renameOld
    case Dies => (d, Dead)
    case Fails => CleanUp(d, fate, Failed)
    case Ok => Publish(d.(bak := d.main, main := Missing), fate)
  }

  function Replace(d: Disk, rotate: bool, fate: Fate): (Disk, Outcome) {
    if !rotate then Publish(d, fate)
    else
      match fate.stat
      case Dies => (d, Dead)
      case Fails => CleanUp(d, fate, Failed)
      case Ok => if d.main.Missing? then Publish(d, fate) else Rotate(d, fate)
  }

  function Write(d: Disk, v: Config, rotate: bool, fate: Fate): (Disk, Outcome) {
    match fate.create
    case Dies => (d, Dead)
    case Fails => (d, Failed)
    case Ok =>
      match fate.fill
      case Dies => (d.(temp := Bad), Dead)
      case Fails => CleanUp(d.(temp := Bad), fate, Failed)
      case Ok => Replace(d.(temp := Good(v)), rotate, fate)
  }

  // ---- Loading

  /** Unread is an open or read failure of the main file that is not damage. */
  datatype Loaded = Main(config: Config) | Recovered(config: Config) | Nothing | Unread

  /** Which of the two files can be read at all. */
  datatype Readable = Readable(main: bool, bak: bool)

  /** A damaged main file is put aside; that may fail too, and then it stays. */
  function PutAside(d: Disk, moved: bool): Disk {
    if d.main.Bad? && moved then d.(main := Missing) else d
  }

  /** What is loaded, and the disk after it; when the backup was the source, the main file
      is rewritten from it, without rotation. A main file that cannot be read is left alone,
      and the backup is not taken in its place. */
  function Load(d: Disk, readable: Readable, moved: bool, fate: Fate): (Disk, Loaded) {
    if !readable.main then (d, Unread)
    else if d.main.Good? then (d, Main(d.main.config))
    else
      var aside := PutAside(d, moved);
      if readable.bak && d.bak.Good? then (Write(aside, d.bak.config, false, fate).0, Recovered(d.bak.config))
      else (aside, Nothing)
  }

  // ---- What is published

  /** A start will find this configuration: in the main file, or in the backup when there
      is no main file. */
  predicate Holds(d: Disk, v: Config) {
    d.main == Good(v) || (d.main.Missing? && d.bak == Good(v))
  }

  /** A write gets past its last rename. */
  predicate Passes(d: Disk, fate: Fate) {
    fate.create.Ok? && fate.fill.Ok? && fate.stat.Ok? && (d.main.Missing? || fate.renameOld.Ok?) && fate.renameNew.Ok?
  }

  /** A write changes what a start will find at one moment, its last rename: before it all
      is as it was, after it all is new, whatever failed and wherever the program died. The
      caller is told: done means published, failed means not. A published write has kept
      what was there before as the backup. */
  lemma WriteIsAtomic(d: Disk, before: Config, v: Config, fate: Fate)
    requires Holds(d, before)
    ensures var (d', o) := Write(d, v, true, fate);
      && Holds(d', if Passes(d, fate) then v else before)
      && (o == Done <==> Passes(d, fate) && !fate.remove.Dies?)
      && (o == Failed ==> !Passes(d, fate))
      && (Passes(d, fate) ==> d'.main == Good(v) && d'.bak == Good(before))
  {
  }

  /** What a start is given of the published configuration: all of it, from whichever file
      has it, or none where that file cannot be read. */
  function Found(d: Disk, v: Config, readable: Readable): Loaded {
    if !readable.main then Unread else if d.main.Good? then Main(v) else if readable.bak then Recovered(v) else Nothing
  }

  /** Loading gives what was published if it can be read, and leaves it published in any
      case, whatever happens to the rewrite of the main file. */
  lemma LoadGivesThePublished(d: Disk, v: Config, readable: Readable, moved: bool, fate: Fate)
    requires Holds(d, v)
    ensures var (d', l) := Load(d, readable, moved, fate);
      Holds(d', v) && l == Found(d, v, readable)
  {
  }

  /** A write that returns has removed its temporary file, unless removing it failed; one that
      dies as it fills it leaves it damaged; and none touches the backup unless it moves the
      main file there. */
  lemma WriteCleansUp(d: Disk, v: Config, rotate: bool, fate: Fate)
    requires d.temp.Missing?
    ensures var (d', o) := Write(d, v, rotate, fate);
      && (o != Dead && fate.remove.Ok? ==> d'.temp.Missing?)
      && (fate.create.Ok? && fate.fill.Dies? ==> o == Dead && d'.temp.Bad?)
      && (d'.bak == d.bak || (rotate && d'.bak == d.main))
      && (!rotate ==> d'.bak == d.bak && (d'.main == d.main || d'.main == Good(v)))
  {
  }

  predicate Restores(d: Disk, readable: Readable, fate: Fate) {
    && readable.main && !d.main.Good? && readable.bak && d.bak.Good?
    && fate.create.Ok? && fate.fill.Ok? && fate.renameNew.Ok?
  }

  /** A start never touches the backup. The main file is as it was, or put aside if it was
      damaged, or the backup's configuration; that, when the main file could be read and was
      none, the backup could be read, and the rewrite went through. */
  lemma LoadKeepsTheBackup(d: Disk, readable: Readable, moved: bool, fate: Fate)
    ensures var d' := Load(d, readable, moved, fate).0;
      && d'.bak == d.bak
      && (d'.main == d.main || (d.main.Bad? && moved && d'.main.Missing?) || d'.main == d.bak)
      && (Restores(d, readable, fate) ==> d'.main == d.bak)
      && (!readable.main ==> d' == d)
  {
  }

  // ---- Any sequence of writes and starts

  datatype Op = OpWrite(config: Config, fate: Fate) | OpLoad(readable: Readable, moved: bool, rewrite: Fate)

  function Next(d: Disk, op: Op): Disk {
    match op
    case OpWrite(v, fate) => Write(d, v, true, fate).0
    case OpLoad(readable, moved, fate) => Load(d, readable, moved, fate).0
  }

  function Run(d: Disk, ops: seq<Op>): Disk {
    if ops == [] then d else Next(Run(d, ops[..|ops| - 1]), ops[|ops| - 1])
  }

  /** The configuration of the last write that got past its last rename. */
  function Published(d: Disk, first: Config, ops: seq<Op>): Config {
    if ops == [] then first
    else
      var op := ops[|ops| - 1];
      if op.OpWrite? && Passes(Run(d, ops[..|ops| - 1]), op.fate) then op.config
      else Published(d, first, ops[..|ops| - 1])
  }

  /** From any published configuration, through any writes and starts, in each of which
      any steps may fail, any file be unreadable and the program die anywhere: a start that
      can read the files finds the configuration published last, never nothing, never
      another and never part of one. */
  lemma {:induction false} NeverLost(d: Disk, first: Config, ops: seq<Op>, readable: Readable, moved: bool, fate: Fate)
    requires Holds(d, first)
    ensures Holds(Run(d, ops), Published(d, first, ops))
    ensures Load(Run(d, ops), readable, moved, fate).1 == Found(Run(d, ops), Published(d, first, ops), readable)
  {
    if ops != [] {
      var n := |ops| - 1;
      NeverLost(d, first, ops[..n], readable, moved, fate);
      var before, v := Run(d, ops[..n]), Published(d, first, ops[..n]);
      match ops[n]
      case OpLoad(r, m, f) => LoadGivesThePublished(before, v, r, m, f);
      case OpWrite(w, f) => WriteIsAtomic(before, v, w, f);
    }
    LoadGivesThePublished(Run(d, ops), Published(d, first, ops), readable, moved, fate);
  }

  /** No later write gets past its last rename. */
  predicate NonePasses(d: Disk, ops: seq<Op>, later: seq<Op>) {
    later == []
    || (var n := |later| - 1;
        NonePasses(d, ops, later[..n]) && (later[n].OpWrite? ==> !Passes(Run(d, ops + later[..n]), later[n].fate)))
  }

  /** A write that is told to be done is the one found, until another gets past its last
      rename. */
  lemma DoneIsDurable(
      d: Disk, first: Config, ops: seq<Op>, v: Config, f: Fate, later: seq<Op>, readable: Readable, moved: bool, fate: Fate)
    requires Holds(d, first) && Write(Run(d, ops), v, true, f).1 == Done
    requires NonePasses(d, ops + [OpWrite(v, f)], later)
    ensures var end := Run(d, ops + [OpWrite(v, f)] + later);
      Load(end, readable, moved, fate).1 == Found(end, v, readable)
  {
    var all := ops + [OpWrite(v, f)];
    assert all[..|ops|] == ops;
    NeverLost(d, first, ops, readable, moved, fate);
    WriteIsAtomic(Run(d, ops), Published(d, first, ops), v, f);
    StaysPublished(d, first, all, later);
    NeverLost(d, first, all + later, readable, moved, fate);
  }

  lemma {:induction false} StaysPublished(d: Disk, first: Config, ops: seq<Op>, later: seq<Op>)
    requires NonePasses(d, ops, later)
    ensures Published(d, first, ops + later) == Published(d, first, ops)
  {
    if later == [] {
      assert ops + later == ops;
    } else {
      var n := |later| - 1;
      StaysPublished(d, first, ops, later[..n]);
      assert (ops + later)[..|ops| + n] == ops + later[..n];
      assert (ops + later)[|ops| + n] == later[n];
    }
  }

  /** When the main file is damaged from outside, what is loaded is the configuration
      published before it. */
  lemma DamageFallsBack(d: Disk, before: Config, v: Config, fate: Fate, readable: Readable, moved: bool, rewrite: Fate)
    requires Holds(d, before) && Passes(d, fate)
    ensures var damaged := Write(d, v, true, fate).0.(main := Bad);
      Load(damaged, readable, moved, rewrite).1 == Found(damaged, before, readable)
  {
    WriteIsAtomic(d, before, v, fate);
  }

  // ---- The program

  class Store {
    var main: File
    var bak: File
    var temp: File

    ghost function View(): Disk
      reads this
    {
      Disk(main, bak, temp)
    }

    constructor (d: Disk)
      ensures View() == d
    {
      main, bak, temp := d.main, d.bak, d.temp;
    }

    /** writeFileAtomic. */
    method WriteFile(v: Config, rotate: bool, fate: Fate) returns (o: Outcome)
      modifies this
      ensures (View(), o) == Write(old(View()), v, rotate, fate)
    {
      if fate.create != Ok {
        return if fate.create == Dies then Dead else Failed;
      }
      temp := Bad;
      if fate.fill == Dies {
        return Dead;
      }
      if fate.fill == Fails {
        o := Cleaned(fate, Failed);
        return;
      }
      temp := Good(v);
      o := ReplaceFile(rotate, fate);
    }

    /** replaceFile: the two renames. */
    method ReplaceFile(rotate: bool, fate: Fate) returns (o: Outcome)
      modifies this
      ensures (View(), o) == Replace(old(View()), rotate, fate)
    {
      if rotate {
        if fate.stat == Dies {
          return Dead;
        }
        if fate.stat == Fails {
          o := Cleaned(fate, Failed);
          return;
        }
        if main != Missing {
          if fate.renameOld == Dies {
            return Dead;
          }
          if fate.renameOld == Fails {
            o := Cleaned(fate, Failed);
            return;
          }
          bak, main := main, Missing;
        }
      }
      if fate.renameNew == Dies {
        return Dead;
      }
      if fate.renameNew == Fails {
        o := Cleaned(fate, Failed);
        return;
      }
      main, temp := temp, Missing;
      o := Cleaned(fate, Done);
    }

    method Cleaned(fate: Fate, o: Outcome) returns (r: Outcome)
      modifies `temp
      ensures (View(), r) == CleanUp(old(View()), fate, o)
    {
      if fate.remove == Dies {
        return Dead;
      }
      if fate.remove == Ok {
        temp := Missing;
      }
      return o;
    }

    method LoadFile(readable: Readable, moved: bool, fate: Fate) returns (l: Loaded)
      modifies this
      ensures (View(), l) == Load(old(View()), readable, moved, fate)
    {
      if !readable.main {
        return Unread;
      }
      if main.Good? {
        return Main(main.config);
      }
      if main.Bad? && moved {
        main := Missing;
      }
      if !readable.bak || !bak.Good? {
        return Nothing;
      }
      l := Recovered(bak.config);
      var o := WriteFile(bak.config, false, fate);
    }
  }
}
