// Whole runs on a file system of one directory: any script of creating, removing, writing and
// reading by name does what it does to a map from names to byte sequences, with as many blocks
// as there are.
module FileSystemRuns {
  import opened Blocks
  import opened BlockMaps
  import opened FileChain
  import opened Allocation
  import opened FileData
  import opened DirSpec
  import opened Directories
  import opened FileSystems

  type View = map<string, Node>

  /** What the names stand for, how many maps the directory has, how many data and inode blocks
      can be had, and whether the map of either allocator is one block. */
  datatype State = State(view: View, maps: nat, data: nat, nodes: nat, oneBlock: bool)

  datatype Op =
    | Make(name: string, isDirectory: bool)
    | Remove(name: string)
    | Put(name: string, pos: nat, data: seq<bv8>)
    | Get(name: string, pos: nat, count: nat)

  /** How an operation went: `Same` if the name to make exists or the name to remove does not,
      `Refused` if nothing was changed, `Short` if a write was cut short; `Unlinked` if the name was
      removed, whether that dropped a map, and what can be had after it. */
  datatype Fate = Done | Same | Refused | Short | Unlinked(dropped: bool, data: nat, nodes: nat)

  datatype Deed = Deed(op: Op, fate: Fate)

  datatype Reply = Reply(ok: bool, data: seq<bv8>)

  function Less(a: nat, b: nat): nat {
    if b <= a then a - b else 0
  }

  /** Every map has as many entries as it has slots. */
  predicate Full(s: State) {
    |s.view| == BMAP_BLOCKS * s.maps
  }

  predicate IsFile(v: View, n: string) {
    n in v && v[n].Data?
  }

  function After(s: State, op: Op, fate: Fate): State {
    match op
    case Make(n, isDirectory) =>
      var grown := if Full(s) then 1 else 0;
      if fate.Done? then
        s.(view := s.view[n := if isDirectory then Folder else Data([], 0)], maps := s.maps + grown,
           data := Less(s.data, grown), nodes := Less(s.nodes, 1))
      else s
    case Remove(n) =>
      if fate.Unlinked? then
        s.(view := s.view - {n}, maps := Less(s.maps, if fate.dropped then 1 else 0), data := fate.data,
           nodes := fate.nodes)
      else s
    case Put(n, p, d) =>
      if IsFile(s.view, n) then
        var node := NodeWritten(s.view[n], p, d, s.data);
        s.(view := s.view[n := node], data := s.data + s.view[n].blocks - node.blocks)
      else s
    case Get(_, _, _) => s
  }

  function Answer(s: State, op: Op, fate: Fate): Reply {
    match op
    case Get(n, p, k) =>
      Reply(true, if IsFile(s.view, n) && p + k <= |s.view[n].bytes| then s.view[n].bytes[p..p + k] else [])
    case _ => Reply(fate.Done? || fate.Unlinked?, [])
  }

  /** What an operation comes to. Only for a removal the state does not say it: whether the name
      was alone in a map depends on where it lies. On maps of one block it gives back exactly
      the inode block, the blocks of the file, and the map. */
  predicate Fits(s: State, op: Op, fate: Fate) {
    match op
    case Make(n, _) =>
      fate == if n in s.view then Same else if (if Full(s) then s.data else s.nodes) == 0 then Refused else Done
    case Remove(n) =>
      if n !in s.view then fate == Same
      else
        || (fate == Refused && s.maps > 1)
        || (fate.Unlinked? && (fate.dropped ==> s.maps > 0) && (s.oneBlock ==>
              && fate.nodes == s.nodes + 1
              && fate.data == s.data + BlocksIn(s.view[n]) + if fate.dropped then 1 else 0))
    case Put(n, p, d) => IsFile(s.view, n) && fate == if WriteLasts(s.view[n], p, |d|, s.data) then Done else Short
    case Get(_, _, _) => fate == Done
  }

  /** Transfers name a file, do not meet the short scan, and reads stay inside it. A new name
      does not need a map when there is one but no inode block, and a write to a file without
      blocks does not find just one. */
  predicate Clear(s: State, op: Op) {
    match op
    case Make(n, _) => n in s.view || !Full(s) || s.data == 0 || s.nodes > 0
    case Remove(_) => true
    case Put(n, p, d) => IsFile(s.view, n) && ClearAt(|s.view[n].bytes|, s.view[n].blocks == 0, s.data, op)
    case Get(n, p, k) => IsFile(s.view, n) && ClearAt(|s.view[n].bytes|, s.view[n].blocks == 0, s.data, op)
  }

  predicate ClearAt(size: nat, empty: bool, data: nat, op: Op) {
    match op
    case Put(_, p, d) => p < POS_LIMIT && WritableAt(size, p, |d|) && (Idle(size, p, |d|) || !empty || data != 1)
    case Get(_, p, k) => p < POS_LIMIT && p + k <= size && WritableAt(size, p, k)
    case _ => true
  }

  /** All that is not clear. */
  lemma NotClear(s: State, op: Op)
    requires !Clear(s, op)
    ensures op.Make? ==>
              op.name !in s.view && |s.view| == BMAP_BLOCKS * s.maps && s.data > 0 && s.nodes == 0
    ensures !op.Remove?
    ensures (op.Put? || op.Get?) && IsFile(s.view, op.name) ==>
              var size, count := |s.view[op.name].bytes|, if op.Put? then |op.data| else op.count;
              || op.pos >= POS_LIMIT || op.pos >= size + GAP_LIMIT
              || (0 < op.pos <= size && op.pos % MAP_BYTES == 0 && count > 0)
              || (0 < size < op.pos && size % MAP_BYTES == 0)
              || (if op.Get? then op.pos + count > size else s.view[op.name].blocks == 0 && s.data == 1)
  {
  }

  function Replay(s: State, log: seq<Deed>): State {
    if log == [] then s
    else
      var d := log[|log| - 1];
      After(Replay(s, log[..|log| - 1]), d.op, d.fate)
  }

  function Answers(s: State, log: seq<Deed>): seq<Reply> {
    if log == [] then []
    else
      var d := log[|log| - 1];
      Answers(s, log[..|log| - 1]) + [Answer(Replay(s, log[..|log| - 1]), d.op, d.fate)]
  }

  /** Every operation was clear when it was made, and came to what it comes to. */
  ghost predicate Lawful(s: State, log: seq<Deed>) {
    log != [] ==>
      var d, t := log[|log| - 1], Replay(s, log[..|log| - 1]);
      Lawful(s, log[..|log| - 1]) && Clear(t, d.op) && Fits(t, d.op, d.fate)
  }

  // ----- what the map promises -----

  /** A name that no operation of the run mentions stands for what it stood for. */
  lemma {:induction false} UntouchedName(s: State, log: seq<Deed>, n: string)
    requires forall d :: d in log ==> d.op.name != n
    ensures n in Replay(s, log).view <==> n in s.view
    ensures n in s.view ==> Replay(s, log).view[n] == s.view[n]
  {
    if log != [] {
      UntouchedName(s, log[..|log| - 1], n);
      assert log[|log| - 1] in log;
    }
  }

  /** What was put is what is got, whatever was done to other names in between. */
  lemma PutThenGet(s: State, n: string, p: nat, d: seq<bv8>, between: seq<Deed>)
    requires IsFile(s.view, n) && WriteLasts(s.view[n], p, |d|, s.data)
    requires forall e :: e in between ==> e.op.name != n
    ensures Answer(Replay(After(s, Put(n, p, d), Done), between), Get(n, p, |d|), Done) == Reply(true, d)
  {
    UntouchedName(After(s, Put(n, p, d), Done), between, n);
  }

  /** A create is answered with success if it added the name, a removal if it took the name
      away, and a write if the bytes from its position on are those given; a write that is not
      took every block there was. */
  lemma AnswerTells(s: State, op: Op, fate: Fate)
    requires Fits(s, op, fate)
    ensures var t, ok := After(s, op, fate), Answer(s, op, fate).ok;
            match op
            case Make(n, isDirectory) =>
              && (ok <==> n !in s.view && n in t.view)
              && (ok ==> t.view == s.view[n := if isDirectory then Folder else Data([], 0)])
              && (!ok ==> t == s)
            case Remove(n) => (ok <==> n in s.view && n !in t.view) && (if ok then t.view == s.view - {n} else t == s)
            case Put(n, p, d) =>
              if ok then
                var c, e := s.view[n].bytes, t.view[n].bytes;
                |e| == (if p + |d| > |c| then p + |d| else |c|) && e[p..p + |d|] == d
              else t.data == 0
            case Get(_, _, _) => ok && t == s
  {
    hide Capacity, Lasts, Needs, Partly, Through;
    if op.Put? {
      var c := s.view[op.name].bytes;
      WrittenSize(c, op.pos, op.data);
      assert Written(c, op.pos, op.data)[op.pos..op.pos + |op.data|] == op.data;
    }
  }

  predicate SomeUnlinked(log: seq<Deed>) {
    exists i :: 0 <= i < |log| && log[i].fate.Unlinked?
  }

  /** The deed was a create that was refused or a write that was cut short. */
  predicate Wanting(d: Deed) {
    (d.op.Make? && d.fate.Refused?) || (d.op.Put? && d.fate.Short?)
  }

  lemma OneStep(s: State, op: Op, fate: Fate)
    requires Fits(s, op, fate) && !fate.Unlinked?
    ensures After(s, op, fate).data <= s.data && After(s, op, fate).nodes <= s.nodes
    ensures Wanting(Deed(op, fate)) ==>
              After(s, op, fate).data == 0 || (op.Make? && !Full(s) && After(s, op, fate).nodes == 0)
  {
    hide WriteLasts, Written, Partly, Through;
  }

  /** As long as no name is removed, what can be had does not grow. */
  lemma {:induction false} RoomsShrink(s: State, log: seq<Deed>, i: nat)
    requires Lawful(s, log) && i <= |log| && !SomeUnlinked(log[i..])
    ensures Lawful(s, log[..i])
    ensures Replay(s, log).data <= Replay(s, log[..i]).data && Replay(s, log).nodes <= Replay(s, log[..i]).nodes
    decreases |log| - i
  {
    hide Fits, Clear, After, Wanting;
    if i == |log| {
      assert log[..i] == log;
    } else {
      forall j | i + 1 <= j < |log| ensures !log[j].fate.Unlinked? {
        assert log[i..][j - i] == log[j];
      }
      RoomsShrink(s, log, i + 1);
      assert log[..i + 1][..i] == log[..i] && log[i..][0] == log[i];
      OneStep(Replay(s, log[..i]), log[i].op, log[i].fate);
    }
  }

  /** A create that was refused and a write that was cut short stay justified until a name is
      removed: no data block can be had, or no inode block. */
  lemma ReasonStands(s: State, log: seq<Deed>, i: nat)
    requires Lawful(s, log) && i < |log| && Wanting(log[i]) && !SomeUnlinked(log[i..])
    ensures Replay(s, log).data == 0 || (log[i].op.Make? && Replay(s, log).nodes == 0)
  {
    hide Fits, Clear, After, Wanting;
    assert log[i..][0] == log[i];
    forall j | i + 1 <= j < |log| ensures !log[j].fate.Unlinked? {
      assert log[i..][j - i] == log[j];
    }
    RoomsShrink(s, log, i + 1);
    assert log[..i + 1][..i] == log[..i];
    OneStep(Replay(s, log[..i]), log[i].op, log[i].fate);
  }

  /** If no name was removed and blocks of both kinds can be had in the end, then no create was
      refused and no write cut short. */
  lemma NothingWanting(s: State, log: seq<Deed>)
    requires Lawful(s, log) && !SomeUnlinked(log) && Replay(s, log).data > 0 && Replay(s, log).nodes > 0
    ensures forall i :: 0 <= i < |log| ==> !Wanting(log[i])
  {
    hide Lawful, Replay, Wanting;
    forall i | 0 <= i < |log| ensures !Wanting(log[i]) {
      if Wanting(log[i]) {
        forall j | 0 <= j < |log[i..]| ensures !log[i..][j].fate.Unlinked? {
          assert log[i..][j] == log[i + j];
        }
        ReasonStands(s, log, i);
      }
    }
  }

  ghost function Sum(v: View): nat {
    if v == map[] then 0 else var n :| n in v; BlocksIn(v[n]) + Sum(v - {n})
  }

  lemma {:induction false} SumWithout(v: View, n: string)
    requires n in v
    ensures Sum(v) == BlocksIn(v[n]) + Sum(v - {n})
    decreases v
  {
    hide BlocksIn;
    var m :| m in v && Sum(v) == BlocksIn(v[m]) + Sum(v - {m});
    if m != n {
      SumWithout(v - {m}, n);
      SumWithout(v - {n}, m);
      assert v - {m} - {n} == v - {n} - {m};
    }
  }

  lemma SumWith(v: View, n: string, node: Node)
    ensures Sum(v[n := node]) + (if n in v then BlocksIn(v[n]) else 0) == Sum(v) + BlocksIn(node)
    ensures |v[n := node]| == |v| + if n in v then 0 else 1
  {
    hide BlocksIn, Sum;
    SumWithout(v[n := node], n);
    assert v[n := node] - {n} == v - {n};
    if n in v {
      SumWithout(v, n);
    } else {
      assert v - {n} == v;
    }
  }

  /** On maps of one block nothing is ever lost: inode blocks to be had and names, and data
      blocks to be had, maps and blocks of files, add up to what they were. */
  lemma {:induction false} NothingIsLost(s: State, log: seq<Deed>)
    requires Lawful(s, log) && s.oneBlock
    ensures var t := Replay(s, log);
            && t.nodes + |t.view| == s.nodes + |s.view| && t.oneBlock
            && t.data + t.maps + Sum(t.view) == s.data + s.maps + Sum(s.view)
  {
    hide Sum, WriteLasts, NodeWritten;
    if log != [] {
      var less, d := log[..|log| - 1], log[|log| - 1];
      NothingIsLost(s, less);
      var t := Replay(s, less);
      match d.op {
        case Make(n, isDirectory) =>
          SumWith(t.view, n, if isDirectory then Folder else Data([], 0));
        case Remove(n) =>
          if d.fate.Unlinked? {
            SumWithout(t.view, n);
            OneNameLess(t.view, n);
          }
        case Put(n, p, bytes) =>
          SumWith(t.view, n, NodeWritten(t.view[n], p, bytes, t.data));
        case Get(_, _, _) =>
      }
    }
  }

  // ----- on the file system -----

  ghost function StateOf(fs: FileSystem): State
    requires fs.Valid()
    reads fs, fs.dir, fs.dir.vol, fs.dir.data, fs.dir.nodes, fs.dir.data.window, fs.dir.nodes.window
  {
    State(fs.View(), |fs.dir.maps|, fs.dir.data.Room(), fs.dir.nodes.Room(),
          fs.dir.data.mapEnd - fs.dir.data.mapStart == 1 && fs.dir.nodes.mapEnd - fs.dir.nodes.mapStart == 1)
  }

  /** The deed added or removed a name. */
  predicate Renames(d: Deed) {
    (d.op.Make? && d.fate.Done?) || d.fate.Unlinked?
  }

  /** A removal was refused because it would have emptied the first of several maps. */
  ghost predicate Standing(fs: FileSystem, d: Deed)
    requires fs.Valid()
    reads fs, fs.dir, fs.dir.vol, fs.dir.data, fs.dir.nodes, fs.dir.data.window, fs.dir.nodes.window
  {
    d.op.Remove? && d.fate.Refused? ==> fs.dir.EmptiesHead(d.op.name)
  }

  /** One clear operation does what it does to the map. */
  method Perform(fs: FileSystem, op: Op) returns (a: Reply, ghost fate: Fate)
    requires fs.Valid() && Clear(StateOf(fs), op)
    modifies fs, fs.dir`maps, fs.dir`grid, fs.vol, fs.dir.data, fs.dir.data.window, fs.dir.nodes, fs.dir.nodes.window
    ensures fs.Valid() && StateOf(fs) == After(old(StateOf(fs)), op, fate)
    ensures Fits(old(StateOf(fs)), op, fate) && a == Answer(old(StateOf(fs)), op, fate)
    ensures op.Remove? ==> (fate.Refused? <==> old(fs.dir.EmptiesHead(op.name)))
    ensures Standing(fs, Deed(op, fate))
    ensures !Renames(Deed(op, fate)) ==> forall d :: old(Standing(fs, d)) ==> Standing(fs, d)
  {
    hide NodeWritten, WriteLasts, BlocksIn, Directory.Mounted, Allocator.Valid, Listing, Compact, WritableAt, Stop,
      Idle, FileSystem.Valid, FileSystem.View, Directory.Valid, Directory.Represents, Allocator.Room,
      Allocator.IsExact, Written, Partly, Lasts, Needs, Through, NoSlotHolds, Capacity;
    match op {
      case Make(name, isDirectory) =>
        fs.SlotsTaken();
        var r := fs.Create(name, isDirectory);
        a := Reply(r.Made?, []);
        fate := if r.Made? then Done else if r == Exists then Same else Refused;
      case Remove(name) =>
        var risk := fs.WouldBreak(name);
        if risk {
          fs.RiskNeedsMaps(name);
          return Reply(false, []), Refused;
        }
        ghost var maps := |fs.dir.maps|;
        var r := fs.Unlink(name);
        a, fate := Reply(r == Gone, []), Same;
        if r == Gone {
          fate := Unlinked(|fs.dir.maps| < maps, fs.dir.data.Room(), fs.dir.nodes.Room());
        }
      case Put(name, pos, d) =>
        var buf := new bv8[|d|](i requires 0 <= i < |d| => d[i]);
        assert buf[..|d|] == d;
        var r := fs.WriteFile(name, pos, buf, |d|);
        a, fate := Reply(r >= 0, []), if r >= 0 then Done else Short;
      case Get(name, pos, count) =>
        var buf := new bv8[count];
        var r := fs.ReadFile(name, pos, buf, count);
        a, fate := Reply(true, buf[..count]), Done;
    }
  }

  method IsClear(fs: FileSystem, op: Op) returns (clear: bool)
    requires fs.Valid()
    ensures clear <==> Clear(StateOf(fs), op)
  {
    hide FileSystem.Valid, FileSystem.View, ClearAt, Allocator.Room, NoSlotHolds;
    match op {
      case Make(name, _) =>
        fs.SlotsTaken();
        var strands := fs.WouldStrand(name);
        return !strands;
      case Remove(_) =>
        return true;
      case _ =>
        var isFile, size, empty := fs.Stat(op.name);
        var room := fs.DataLeft();
        return isFile && ClearAt(size, empty, room, op);
    }
  }

  /** Run a script. Operations do what they do to the map, and answer the same; what is refused
      or cut short is answered so, and the run goes on. It stops only before an operation that
      is not clear. A removal is refused only for the reason in `Standing`, which holds until a
      name is added or removed; if no name was removed and blocks of both kinds can be had in
      the end, no create was refused and no write cut short. */
  method Run(fs: FileSystem, script: seq<Op>) returns (done: nat, answers: seq<Reply>, ghost log: seq<Deed>)
    requires fs.Valid()
    modifies fs, fs.dir`maps, fs.dir`grid, fs.vol, fs.dir.data, fs.dir.data.window, fs.dir.nodes, fs.dir.nodes.window
    ensures done == |log| <= |script| && forall i :: 0 <= i < done ==> log[i].op == script[i]
    ensures Lawful(old(StateOf(fs)), log) && answers == Answers(old(StateOf(fs)), log)
    ensures fs.Valid() && StateOf(fs) == Replay(old(StateOf(fs)), log)
    ensures done < |script| ==> !Clear(StateOf(fs), script[done])
    ensures forall i :: 0 <= i < done && (forall j :: i < j < done ==> !Renames(log[j])) ==> Standing(fs, log[i])
    ensures !SomeUnlinked(log) && !fs.dir.data.Exhausted() && !fs.dir.nodes.Exhausted() ==>
              forall i :: 0 <= i < done ==> !Wanting(log[i])
  {
    hide FileSystem.Valid, FileSystem.View, Clear, Fits, After, Answer, Standing, Renames, Lawful, Replay, Answers,
      StateOf, SomeUnlinked, Wanting, Allocator.Room;
    ghost var s := StateOf(fs);
    done, answers, log := 0, [], [];
    NothingYet(s);
    while done < |script|
      invariant done == |log| <= |script| && forall i :: 0 <= i < done ==> log[i].op == script[i]
      invariant fs.Valid() && StateOf(fs) == Replay(s, log) && Lawful(s, log) && answers == Answers(s, log)
      invariant forall i :: 0 <= i < done && (forall j :: i < j < done ==> !Renames(log[j])) ==> Standing(fs, log[i])
    {
      var clear := IsClear(fs, script[done]);
      if !clear {
        break;
      }
      ghost var before := log;
      ghost var fate;
      var a;
      a, fate := Perform(fs, script[done]);
      log := log + [Deed(script[done], fate)];
      LogGrows(s, before, Deed(script[done], fate));
      answers, done := answers + [a], done + 1;
      forall i | 0 <= i < done && forall j :: i < j < done ==> !Renames(log[j]) ensures Standing(fs, log[i]) {
        assert i < done - 1 ==> log[i] == before[i] && !Renames(log[done - 1]);
        assert forall j :: i < j < done - 1 ==> before[j] == log[j];
      }
    }
    RoomsOf(fs);
    if !SomeUnlinked(log) && !fs.dir.data.Exhausted() && !fs.dir.nodes.Exhausted() {
      NothingWanting(s, log);
    }
  }

  lemma RoomsOf(fs: FileSystem)
    requires fs.Valid()
    ensures StateOf(fs).data == fs.dir.data.Room() && StateOf(fs).nodes == fs.dir.nodes.Room()
  {
  }

  lemma NothingYet(s: State)
    ensures Lawful(s, []) && Replay(s, []) == s && Answers(s, []) == []
  {
  }

  lemma LogGrows(s: State, log: seq<Deed>, d: Deed)
    requires Lawful(s, log) && Clear(Replay(s, log), d.op) && Fits(Replay(s, log), d.op, d.fate)
    ensures Lawful(s, log + [d])
    ensures Replay(s, log + [d]) == After(Replay(s, log), d.op, d.fate)
    ensures Answers(s, log + [d]) == Answers(s, log) + [Answer(Replay(s, log), d.op, d.fate)]
  {
    hide Clear, Fits, After, Answer;
    assert (log + [d])[..|log|] == log;
  }
}
