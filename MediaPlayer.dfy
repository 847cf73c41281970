/** The playback state machine of SBMediaPlayer (shotboard_med.py). The video
    player thread is represented by the frame range it was started on and the
    queue of frame indices it has delivered; whether the video file exists is
    a parameter. */
module MediaPlayer {
  import opened PyList

  datatype State = Stopped | Playing | Paused

  /** What `set_state` is given: a State, or any other Python value. */
  datatype StateArg = AState(state: State) | NotAState

  datatype Outcome = Done | ValueError

  /** A running VideoPlayer thread: its frame range and the frames it has
      queued for display. */
  datatype VideoPlayer = VideoPlayer(startFrame: int, endFrame: int, queue: seq<int>)

  /** The four player operations; `play` depends on whether the file exists. */
  datatype Op = PlayOp(fileExists: bool) | PauseOp | ResumeOp | StopOp

  /** The state, and whether a player exists, after one operation. */
  function Step(state: State, hasPlayer: bool, op: Op): (State, bool)
  {
    match op
    case PlayOp(exists_) => if exists_ then (Playing, true) else (state, hasPlayer)
    case PauseOp => if hasPlayer then (Paused, true) else (state, false)
    case ResumeOp => if hasPlayer then (Playing, true) else (state, false)
    case StopOp => if hasPlayer then (Stopped, false) else (state, false)
  }

  /** The state after a run of operations. */
  function Run(state: State, hasPlayer: bool, ops: seq<Op>): (State, bool)
    decreases |ops|
  {
    if ops == [] then (state, hasPlayer)
    else
      var next := Step(state, hasPlayer, ops[0]);
      Run(next.0, next.1, ops[1..])
  }

  /** Any run of play, pause, resume and stop keeps "Stopped exactly when
      there is no player". */
  lemma {:induction false} RunKeepsStoppedIffNoPlayer(state: State, hasPlayer: bool, ops: seq<Op>)
    requires state == Stopped <==> !hasPlayer
    ensures Run(state, hasPlayer, ops).0 == Stopped <==> !Run(state, hasPlayer, ops).1
    decreases |ops|
  {
    if ops != [] {
      var next := Step(state, hasPlayer, ops[0]);
      RunKeepsStoppedIffNoPlayer(next.0, next.1, ops[1..]);
    }
  }

  class SBMediaPlayer {
    var state: State
    var player: Option<VideoPlayer>
    var videoPath: Option<string>
    var fps: real
    var startFrameIndex: int
    /** Excluded: the next shot's first frame. */
    var endFrameIndex: int
    /** The states sent on `stateChanged`, oldest first. */
    var emitted: seq<State>
    /** The frames handed to the display, oldest first. */
    var shown: seq<int>

    /** Stopped exactly when no player thread exists. */
    predicate Consistent()
      reads this
    {
      state == Stopped <==> player.None?
    }

    constructor ()
      ensures state == Stopped && player == None && Consistent()
      ensures startFrameIndex == 0 && endFrameIndex == 0
      ensures videoPath == None && fps == 0.0
      ensures emitted == [] && shown == []
    {
      state := Stopped;
      player := None;
      videoPath := None;
      fps := 0.0;
      startFrameIndex := 0;
      endFrameIndex := 0;
      emitted := [];
      shown := [];
    }

    /** Selects the whole video, frames [0, frameCount). */
    method SetVideo(path: string, rate: real, frameCount: int)
      modifies this
      ensures videoPath == Some(path) && fps == rate
      ensures startFrameIndex == 0 && endFrameIndex == frameCount
      ensures state == old(state) && player == old(player)
      ensures emitted == old(emitted) && shown == old(shown)
    {
      videoPath := Some(path);
      fps := rate;
      startFrameIndex := 0;
      endFrameIndex := frameCount;
    }

    /** Changes the state and notifies only on an actual change; any value
        that is not a State is refused with ValueError. */
    method SetState(arg: StateArg) returns (r: Outcome)
      modifies this
      ensures r == ValueError <==> arg.NotAState?
      ensures arg.NotAState? ==> state == old(state) && emitted == old(emitted)
      ensures arg.AState? ==> state == arg.state
      ensures arg.AState? && arg.state != old(state) ==> emitted == old(emitted) + [arg.state]
      ensures arg.AState? && arg.state == old(state) ==> emitted == old(emitted)
      ensures player == old(player) && shown == old(shown)
      ensures startFrameIndex == old(startFrameIndex) && endFrameIndex == old(endFrameIndex)
    {
      match arg
      case AState(s) =>
        if state != s {
          state := s;
          emitted := emitted + [s];
        }
        r := Done;
      case NotAState =>
        r := ValueError;
    }

    /** Starts a player over [startFrameIndex, endFrameIndex) unless the video
        file is missing. */
    method Play(fileExists: bool)
      modifies this
      ensures !fileExists ==> state == old(state) && player == old(player) && emitted == old(emitted)
      ensures (state, player.Some?) == Step(old(state), old(player).Some?, PlayOp(fileExists))
      ensures fileExists ==> state == Playing
      ensures fileExists ==> player == Some(VideoPlayer(startFrameIndex, endFrameIndex, []))
      ensures fileExists && old(state) != Playing ==> emitted == old(emitted) + [Playing]
      ensures fileExists && old(state) == Playing ==> emitted == old(emitted)
      ensures old(Consistent()) ==> Consistent()
      ensures startFrameIndex == old(startFrameIndex) && endFrameIndex == old(endFrameIndex)
      ensures shown == old(shown)
    {
      if !fileExists {
        return;
      }
      player := Some(VideoPlayer(startFrameIndex, endFrameIndex, []));
      var _ := SetState(AState(Playing));
    }

    /** Pauses a running player; without one nothing happens. */
    method Pause()
      modifies this
      ensures old(player).None? ==> state == old(state) && emitted == old(emitted)
      ensures (state, player.Some?) == Step(old(state), old(player).Some?, PauseOp)
      ensures old(player).Some? ==> state == Paused
      ensures old(player).Some? && old(state) != Paused ==> emitted == old(emitted) + [Paused]
      ensures old(player).Some? && old(state) == Paused ==> emitted == old(emitted)
      ensures player == old(player) && shown == old(shown)
      ensures old(Consistent()) ==> Consistent()
    {
      if player.Some? {
        var _ := SetState(AState(Paused));
      }
    }

    /** Resumes a player; without one nothing happens. */
    method Resume()
      modifies this
      ensures old(player).None? ==> state == old(state) && emitted == old(emitted)
      ensures (state, player.Some?) == Step(old(state), old(player).Some?, ResumeOp)
      ensures old(player).Some? ==> state == Playing
      ensures old(player).Some? && old(state) != Playing ==> emitted == old(emitted) + [Playing]
      ensures old(player).Some? && old(state) == Playing ==> emitted == old(emitted)
      ensures player == old(player) && shown == old(shown)
      ensures old(Consistent()) ==> Consistent()
    {
      if player.Some? {
        var _ := SetState(AState(Playing));
      }
    }

    /** Stops and drops the player; without one nothing happens, so a second
        stop is harmless. */
    method Stop()
      modifies this
      ensures player == None
      ensures old(player).None? ==> state == old(state) && emitted == old(emitted)
      ensures (state, player.Some?) == Step(old(state), old(player).Some?, StopOp)
      ensures old(player).Some? ==> state == Stopped
      ensures old(player).Some? && old(state) != Stopped ==> emitted == old(emitted) + [Stopped]
      ensures old(player).Some? && old(state) == Stopped ==> emitted == old(emitted)
      ensures shown == old(shown)
      ensures old(Consistent()) ==> Consistent()
    {
      if player.Some? {
        player := None;
        var _ := SetState(AState(Stopped));
      }
    }

    /** Shows the oldest queued frame, if any; a player must exist. */
    method OnFrameLoaded()
      requires player.Some?
      modifies this
      ensures old(player.value.queue) == [] ==> player == old(player) && shown == old(shown)
      ensures old(player.value.queue) != [] ==>
                player == Some(old(player.value).(queue := old(player.value.queue)[1..])) &&
                shown == old(shown) + [old(player.value.queue)[0]]
      ensures state == old(state) && emitted == old(emitted)
    {
      var p := player.value;
      if p.queue != [] {
        shown := shown + [p.queue[0]];
        player := Some(p.(queue := p.queue[1..]));
      }
    }
  }

  /** Two stops in a row: the second changes nothing and emits nothing. */
  method StopTwice(m: SBMediaPlayer)
    requires m.Consistent()
    modifies m
    ensures m.state == Stopped && m.player == None && m.Consistent()
    ensures |m.emitted| <= |old(m.emitted)| + 1
    ensures m.emitted == old(m.emitted) + (if old(m.player).Some? && old(m.state) != Stopped then [Stopped] else [])
    ensures m.shown == old(m.shown)
  {
    m.Stop();
    ghost var once := m.emitted;
    m.Stop();
    assert m.emitted == once;
  }
}
