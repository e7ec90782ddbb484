// The WASAPI renderer of the capture sample: the device-state machine that
// the UI thread drives with start, stop and pause requests, the command
// queue the audio thread drains, and the frame arithmetic that decides how
// much the audio thread writes into the device buffer. The audio client,
// the wave source and the capture buffer are outside the model: what they
// report comes in as parameters.

module WasapiRenderer {
  import opened Common
  import opened Dx

  /** DeviceState, as far as the renderer uses it. */
  datatype DeviceState =
    | UnInitialized | Activated | Initialized | Starting | Playing
    | Stopping | Stopped | Pausing | Paused | InError

  /** The commands the UI thread queues for the audio thread. */
  datatype Command = CmdStart | CmdStop | CmdPause

  /** What one pass of OnAudioSampleRequested hands the render client:
      nothing, `frames` frames of silence, or `frames` frames of samples. */
  datatype Write = NoWrite | Silence(frames: u32) | Samples(frames: u32)

  /** nBlockAlign of the mix format: ActivateCompleted forces stereo
      32-bit output, 8 bytes a frame, before the audio thread starts. */
  const BLOCK_ALIGN: nat := 8

  /** The state after the audio thread runs one command. OnStartPlayback
      pre-rolls silence (`prerollOk`) and starts the client (`startOk`);
      a failed pre-roll leaves the state alone. */
  function AfterCommand(state: DeviceState, cmd: Command, prerollOk: bool, startOk: bool): DeviceState
  {
    match cmd
    case CmdStart => if !prerollOk then state else if startOk then Playing else InError
    case CmdStop => Stopped
    case CmdPause => Paused
  }

  /** The state after the audio thread runs `cmds` in order. */
  function AfterCommands(state: DeviceState, cmds: seq<Command>, prerollOk: bool, startOk: bool): DeviceState
    decreases |cmds|
  {
    if cmds == [] then state
    else AfterCommands(AfterCommand(state, cmds[0], prerollOk, startOk), cmds[1..], prerollOk, startOk)
  }

  /** Running two batches is running them one after the other. */
  lemma {:induction false} AfterCommandsAppend(state: DeviceState, a: seq<Command>, b: seq<Command>, prerollOk: bool, startOk: bool)
    ensures AfterCommands(state, a + b, prerollOk, startOk)
         == AfterCommands(AfterCommands(state, a, prerollOk, startOk), b, prerollOk, startOk)
    decreases |a|
  {
    if a != [] {
      assert (a + b)[1..] == a[1..] + b;
      AfterCommandsAppend(AfterCommand(state, a[0], prerollOk, startOk), a[1..], b, prerollOk, startOk);
    } else {
      assert a + b == b;
    }
  }

  /** The last stop or pause in a batch decides the state, whatever came
      before it, unless a start follows. */
  lemma {:induction false} LastCommandDecides(state: DeviceState, cmds: seq<Command>, prerollOk: bool, startOk: bool)
    requires cmds != [] && cmds[|cmds| - 1] != CmdStart
    ensures AfterCommands(state, cmds, prerollOk, startOk) == (if cmds[|cmds| - 1] == CmdStop then Stopped else Paused)
  {
    var n := |cmds| - 1;
    assert cmds == cmds[..n] + [cmds[n]];
    AfterCommandsAppend(state, cmds[..n], [cmds[n]], prerollOk, startOk);
  }

  /** GetCurrentPadding's complement: the UINT32 difference of the buffer
      size and the queued frames. */
  function FramesAvailable(bufferFrames: u32, padding: u32): (r: u32)
    ensures padding <= bufferFrames ==> r == bufferFrames - padding
    ensures padding > bufferFrames ==> r == TWO_32 + bufferFrames - padding
  {
    Wrap32Diff(bufferFrames - padding);
    Wrap32(bufferFrames - padding)
  }

  /** GetCaptureSample: the whole frames the capture buffer holds, cut down
      to the free space. */
  function CaptureFrames(available: u32, captureUsage: u32): (r: u32)
    ensures r <= available && r * BLOCK_ALIGN <= captureUsage
    ensures r == available || r == captureUsage / BLOCK_ALIGN
    ensures r < available ==> captureUsage < (r + 1) * BLOCK_ALIGN
  {
    var whole := captureUsage / BLOCK_ALIGN;
    if available < whole then available else whole
  }

  lemma Wrap32Below(x: nat)
    ensures x < TWO_32 ==> Wrap32(x) == x
  {
    if x < TWO_32 {
      Wrap32Small(x);
    }
  }

  /** GetWaveSample, when the wave source is not at its end: the next wave
      buffer goes out whole if it fits the free space (compared in UINT32
      bytes), and nothing goes out otherwise. */
  function WaveFrames(available: u32, bufferLength: u32): (r: Option<u32>)
    ensures available * BLOCK_ALIGN < TWO_32 ==>
      (r.Some? <==> bufferLength <= available * BLOCK_ALIGN)
    ensures r.Some? ==> r.value * BLOCK_ALIGN <= bufferLength < (r.value + 1) * BLOCK_ALIGN
    ensures r.Some? && available * BLOCK_ALIGN < TWO_32 ==> r.value <= available
  {
    Wrap32Below(available * BLOCK_ALIGN);
    if bufferLength <= Wrap32(available * BLOCK_ALIGN) then
      Some(bufferLength / BLOCK_ALIGN)
    else
      None
  }

  class Renderer {
    var state: DeviceState
    /** m_CmdQueue, front first. */
    var cmdQueue: seq<Command>
    /** m_bLoopback: play back what is captured rather than the wave file. */
    var loopback: bool
    /** m_BufferFrames */
    var bufferFrames: u32
    /** Whether m_AudioClient and m_AudioRenderClient are set. */
    var hasClient: bool

    constructor ()
      ensures state == UnInitialized && cmdQueue == [] && !loopback && bufferFrames == 0 && !hasClient
    {
      state := UnInitialized;
      cmdQueue := [];
      loopback := false;
      bufferFrames := 0;
      hasClient := false;
    }

    /** ActivateCompleted. Activation in any state but UnInitialized is an
        error. Otherwise a successful activation goes through Activated to
        Initialized when every setup call succeeds (`setupOk`), and to the
        error state when one fails. A failed GetActivateResult is an error;
        a failed activation result behind a successful GetActivateResult
        leaves the state as it was. The callback always returns S_OK. */
    method ActivateCompleted(getResultOk: bool, activateOk: bool, setupOk: bool, frames: u32) returns (hr: nat)
      modifies this`state, this`hasClient, this`bufferFrames
      ensures hr == S_OK
      ensures old(state) != UnInitialized ==> state == InError && !hasClient
      ensures old(state) == UnInitialized && getResultOk && activateOk ==>
        (if setupOk then state == Initialized && hasClient && bufferFrames == frames else state == InError && !hasClient)
      ensures old(state) == UnInitialized && !getResultOk ==> state == InError && !hasClient
      ensures old(state) == UnInitialized && getResultOk && !activateOk ==> unchanged(this)
    {
      if state != UnInitialized {
        state, hasClient := InError, false;
        return S_OK;
      }
      if getResultOk && activateOk {
        state := Activated;
        if !setupOk {
          state, hasClient := InError, false;
          return S_OK;
        }
        bufferFrames := frames;
        state, hasClient := Initialized, true;
      } else if !getResultOk {
        state, hasClient := InError, false;
      }
      hr := S_OK;
    }

    /** StartPlaybackAsync: from Stopped or Initialized the renderer starts
        and queues a start; from Paused it only queues a start; anything
        else is E_FAIL. The loopback choice is stored in every case. */
    method StartPlaybackAsync(useLoopback: bool) returns (hr: nat)
      modifies this`state, this`cmdQueue, this`loopback
      ensures loopback == useLoopback
      ensures hr == S_OK <==> old(state) in {Stopped, Initialized, Paused}
      ensures hr != S_OK ==> hr == E_FAIL && state == old(state) && cmdQueue == old(cmdQueue)
      ensures hr == S_OK ==> cmdQueue == old(cmdQueue) + [CmdStart]
      ensures hr == S_OK ==> state == (if old(state) == Paused then Paused else Starting)
    {
      loopback := useLoopback;
      if state == Stopped || state == Initialized {
        state := Starting;
        cmdQueue := cmdQueue + [CmdStart];
        return S_OK;
      } else if state == Paused {
        cmdQueue := cmdQueue + [CmdStart];
        return S_OK;
      }
      hr := E_FAIL;
    }

    /** StopPlaybackAsync: allowed from Playing, Paused or the error state. */
    method StopPlaybackAsync() returns (hr: nat)
      modifies this`state, this`cmdQueue
      ensures hr == S_OK <==> old(state) in {Playing, Paused, InError}
      ensures hr != S_OK ==> hr == E_NOT_VALID_STATE && unchanged(this)
      ensures hr == S_OK ==> state == Stopping && cmdQueue == old(cmdQueue) + [CmdStop]
    {
      if state != Playing && state != Paused && state != InError {
        return E_NOT_VALID_STATE;
      }
      state := Stopping;
      cmdQueue := cmdQueue + [CmdStop];
      hr := S_OK;
    }

    /** PausePlaybackAsync: allowed from Playing or the error state. */
    method PausePlaybackAsync() returns (hr: nat)
      modifies this`state, this`cmdQueue
      ensures hr == S_OK <==> old(state) in {Playing, InError}
      ensures hr != S_OK ==> hr == E_NOT_VALID_STATE && unchanged(this)
      ensures hr == S_OK ==> state == Pausing && cmdQueue == old(cmdQueue) + [CmdPause]
    {
      if state != Playing && state != InError {
        return E_NOT_VALID_STATE;
      }
      state := Pausing;
      cmdQueue := cmdQueue + [CmdPause];
      hr := S_OK;
    }

    /** The command branch of AudioSampleThread: the queue is copied out
        front first and emptied, then each command runs in that order. */
    method DrainCommands(prerollOk: bool, startOk: bool) returns (executed: seq<Command>)
      modifies this`state, this`cmdQueue
      ensures cmdQueue == [] && executed == old(cmdQueue)
      ensures state == AfterCommands(old(state), old(cmdQueue), prerollOk, startOk)
    {
      var availCmds := |cmdQueue|;
      var cmds: seq<Command> := [];
      var i := 0;
      while i < availCmds
        invariant i <= availCmds && |cmdQueue| == availCmds - i
        invariant cmds + cmdQueue == old(cmdQueue) && |cmds| == i
        invariant state == old(state)
      {
        cmds := cmds + [cmdQueue[0]];
        cmdQueue := cmdQueue[1..];
        i := i + 1;
      }
      assert cmds == old(cmdQueue);
      executed := [];
      i := 0;
      while i < availCmds
        invariant i <= availCmds && executed == cmds[..i]
        invariant state == AfterCommands(old(state), cmds[..i], prerollOk, startOk)
        invariant cmdQueue == []
      {
        AfterCommandsAppend(old(state), cmds[..i], [cmds[i]], prerollOk, startOk);
        assert cmds[..i + 1] == cmds[..i] + [cmds[i]];
        match cmds[i] {
          case CmdStart =>
            if prerollOk {
              state := if startOk then Playing else InError;
            }
          case CmdStop =>
            state := Stopped;
          case CmdPause =>
            state := Paused;
        }
        executed := executed + [cmds[i]];
        i := i + 1;
      }
      assert cmds[..i] == cmds;
    }

    /** OnAudioSampleRequested for one device event. `padding` is
        GetCurrentPadding's answer (None when it fails); `waveEof` and
        `waveLength` describe the wave source and `captureUsage` the capture
        buffer. Silence is written on request; samples only while playing,
        from the capture buffer in loopback and from the wave source
        otherwise; at the end of the wave source the request is silence and
        a stop. */
    method OnAudioSampleRequested(isSilence: bool, padding: Option<u32>, waveEof: bool, waveLength: u32, captureUsage: u32)
      returns (w: Write)
      modifies this`state, this`cmdQueue
      ensures padding.None? ==> w == NoWrite && unchanged(this)
      ensures padding.Some? && padding.value <= bufferFrames ==>
        (w.Silence? || w.Samples?) && bufferFrames * BLOCK_ALIGN < TWO_32 ==> w.frames <= bufferFrames - padding.value
      ensures padding.Some? && FramesAvailable(bufferFrames, padding.value) > 0 && isSilence ==>
        w == Silence(FramesAvailable(bufferFrames, padding.value))
      ensures !isSilence && old(state) != Playing ==> w == NoWrite
      ensures w.Samples? && loopback ==> w.frames * BLOCK_ALIGN <= captureUsage
      ensures w.Samples? && !loopback ==> w.frames * BLOCK_ALIGN <= waveLength
      ensures state != old(state) ==> old(state) == Playing && state == Stopping && cmdQueue == old(cmdQueue) + [CmdStop]
      ensures state == old(state) ==> cmdQueue == old(cmdQueue)
    {
      w := NoWrite;
      if padding.None? {
        return;
      }
      var available := FramesAvailable(bufferFrames, padding.value);
      if available == 0 {
        return;
      }
      if isSilence {
        return Silence(available);
      }
      if state == Playing {
        if loopback {
          var frames := CaptureFrames(available, captureUsage);
          if frames > 0 {
            w := Samples(frames);
          } else {
            w := Silence(available);
          }
        } else if waveEof {
          w := Silence(available);
          var _ := StopPlaybackAsync();
        } else {
          var frames := WaveFrames(available, waveLength);
          if frames.Some? {
            w := Samples(frames.value);
          }
        }
      }
    }
  }

  /** A start from a stopped renderer, once the audio thread has run the
      queue and both the pre-roll and the client start succeed, leaves it
      playing. */
  lemma StartFromStoppedPlays(queue: seq<Command>)
    requires queue == [] || queue[|queue| - 1] != CmdStart
    ensures AfterCommands(Starting, queue + [CmdStart], true, true) == Playing
  {
    AfterCommandsAppend(Starting, queue, [CmdStart], true, true);
  }
}
