/** What poll and kqueue share: the events of a descriptor, and what hio_add and hio_del ask for. */
module Watch {

  datatype Dir = Read | Write

  /** A bit mask of HV_READ and HV_WRITE is a set of directions. */
  type Mask = set<Dir>

  type Fd = nat

  // ---- what a run of hio_add and hio_del asks for

  datatype WatchOp = AddOp(fd: Fd, events: Mask) | DelOp(fd: Fd, events: Mask)

  /** Whether an io is active, and its events. */
  type Level = (bool, Mask)

  function LevelAfter(level: Level, op: WatchOp): Level {
    match op
    case AddOp(_, events) => (true, if level.1 * events == {} then level.1 + events else level.1)
    case DelOp(_, events) => if level.0 then (level.1 - events != {}, level.1 - events) else level
  }

  function LevelsAfter(levels: map<Fd, Level>, ops: seq<WatchOp>): map<Fd, Level>
    requires forall op :: op in ops ==> op.fd in levels
    decreases |ops|
  {
    if ops == [] then levels
    else LevelsAfter(levels[ops[0].fd := LevelAfter(levels[ops[0].fd], ops[0])], ops[1..])
  }

  lemma Subset(a: Mask, b: Mask)
    ensures a - b == {} <==> a <= b
    ensures a * b == {} ==> a - b == a
  {
    if a - b == {} {
      forall d | d in a ensures d in b { assert d !in a - b; }
    }
    if a * b == {} {
      forall d | d in a ensures d !in b { assert d !in a * b; }
    }
  }
}
