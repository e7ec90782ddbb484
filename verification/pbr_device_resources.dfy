// The Direct3D 12 device wrapper of the PBR sample for Xbox One: the
// constructor's argument check and format choice, the descriptor budget of
// the render-target heap, and the ring of back buffers with one fence value
// per buffer that Present, WaitForGpu and a resize advance. The GPU, the
// swap chain and the fence object are outside the model; what they report
// (a call that failed, the fence's completed value) comes in as parameters.

module PbrDeviceResources {
  import opened Common
  import opened Dx

  /** std::out_of_range from the constructor, std::exception when no window
      was set, and a failed HRESULT that ThrowIfFailed turns into a throw. */
  datatype Error = OutOfRange | NoWindow | DeviceFailure

  /** The constructor's flags: c_Enable4K_UHD and c_EnableHDR. */
  datatype Options = Options(enable4K: bool, enableHDR: bool)

  class DeviceResources {
    /** MAX_BACK_BUFFER_COUNT, the length of the per-buffer arrays. The
        header that defines it is not part of this model, so it is a
        parameter here. */
    const maxBackBufferCount: nat
    const backBufferCount: u32
    const backBufferFormat: nat
    const depthBufferFormat: nat
    /** The format of the Game DVR swap chain: the requested format under
        HDR, DXGI_FORMAT_UNKNOWN otherwise. */
    const gameDvrFormat: nat
    /** m_fenceValues: the fence value each back buffer waits for. */
    const fenceValues: array<u64>

    var options: Options
    var backBufferIndex: nat
    var outputSize: Rect
    /** NumDescriptors of the render-target-view heap. */
    var rtvDescriptorCount: nat
    /** The format passed to the swap chain on the last resize. */
    var swapChainFormat: nat
    /** The scissor rectangle's right and bottom: the back-buffer size. */
    var scissorWidth: u32
    var scissorHeight: u32

    ghost predicate Valid()
      reads this
    {
      && 0 < maxBackBufferCount < 0x8000_0000
      && fenceValues.Length == maxBackBufferCount
      && backBufferCount <= maxBackBufferCount
      && backBufferIndex < maxBackBufferCount
      && (backBufferIndex == 0 || backBufferIndex < backBufferCount)
    }

    /** The current back buffer carries the highest fence value of the ring:
        every other buffer waits for a value already scheduled. */
    ghost predicate CurrentIsNewest()
      requires Valid()
      reads this, fenceValues
    {
      forall i :: 0 <= i < backBufferCount ==> fenceValues[i] <= fenceValues[backBufferIndex]
    }

    constructor (maxCount: nat, backBufferFormat: nat, depthBufferFormat: nat, backBufferCount: u32, flags: Options)
      requires 0 < maxCount < 0x8000_0000 && backBufferCount <= maxCount
      ensures Valid() && fresh(fenceValues)
      ensures this.maxBackBufferCount == maxCount && this.backBufferCount == backBufferCount
      ensures this.backBufferFormat == (if flags.enableHDR then R10G10B10A2_UNORM else backBufferFormat)
      ensures gameDvrFormat == (if flags.enableHDR then backBufferFormat else UNKNOWN)
      ensures this.depthBufferFormat == depthBufferFormat && options == flags
      ensures backBufferIndex == 0 && forall i :: 0 <= i < fenceValues.Length ==> fenceValues[i] == 0
      ensures outputSize == Rect(0, 0, 1920, 1080)
    {
      maxBackBufferCount := maxCount;
      this.backBufferCount := backBufferCount;
      this.backBufferFormat := if flags.enableHDR then R10G10B10A2_UNORM else backBufferFormat;
      this.depthBufferFormat := depthBufferFormat;
      gameDvrFormat := if flags.enableHDR then backBufferFormat else UNKNOWN;
      fenceValues := new u64[maxCount](_ => 0);
      options := flags;
      backBufferIndex := 0;
      outputSize := Rect(0, 0, 1920, 1080);
      rtvDescriptorCount := 0;
      swapChainFormat := UNKNOWN;
      scissorWidth, scissorHeight := 0, 0;
    }

    /** The render-target slot of back buffer `n`, or of its Game DVR twin. */
    function RtvSlot(n: nat, gameDvr: bool): nat
      reads this
    {
      if gameDvr then backBufferCount + n else n
    }

    /** The bookkeeping of CreateDeviceResources: the size of the RTV heap,
        the first fence increment, and the 4K choice, which keeps the flag
        only on an Xbox One X. */
    method CreateDeviceResources(isOneX: bool)
      requires Valid()
      modifies this`rtvDescriptorCount, this`outputSize, this`options, fenceValues
      ensures Valid()
      ensures rtvDescriptorCount == (if options.enableHDR then 2 * backBufferCount else backBufferCount)
      ensures forall n :: 0 <= n < backBufferCount ==>
        RtvSlot(n, false) < rtvDescriptorCount && (options.enableHDR ==> RtvSlot(n, true) < rtvDescriptorCount)
      ensures forall n, m :: 0 <= n < backBufferCount && 0 <= m < backBufferCount ==> RtvSlot(n, false) != RtvSlot(m, true)
      ensures fenceValues[backBufferIndex] == Wrap64(old(fenceValues[backBufferIndex]) as int + 1)
      ensures forall i :: 0 <= i < fenceValues.Length && i != backBufferIndex ==> fenceValues[i] == old(fenceValues[i])
      ensures options.enableHDR == old(options.enableHDR)
      ensures options.enable4K == (old(options.enable4K) && isOneX)
      ensures outputSize == if old(options.enable4K) && isOneX then Rect(0, 0, 3840, 2160) else old(outputSize)
    {
      rtvDescriptorCount := if options.enableHDR then backBufferCount * 2 else backBufferCount;
      fenceValues[backBufferIndex] := Wrap64(fenceValues[backBufferIndex] as int + 1);
      if options.enable4K {
        if isOneX {
          outputSize := Rect(0, 0, 3840, 2160);
        } else {
          options := options.(enable4K := false);
        }
      }
    }

    /** WaitForGpu: when the queue, the fence and the event exist and the
        signal and the wait succeed (`ready`), the current buffer's fence
        value goes up by one; otherwise nothing changes. */
    method WaitForGpu(ready: bool)
      requires Valid()
      modifies fenceValues
      ensures fenceValues[backBufferIndex] ==
        if ready then Wrap64(old(fenceValues[backBufferIndex]) as int + 1) else old(fenceValues[backBufferIndex])
      ensures forall i :: 0 <= i < fenceValues.Length && i != backBufferIndex ==> fenceValues[i] == old(fenceValues[i])
      ensures old(CurrentIsNewest()) && old(fenceValues[backBufferIndex]) as int + 1 < TWO_64 ==> CurrentIsNewest()
    {
      if ready {
        var v := fenceValues[backBufferIndex];
        fenceValues[backBufferIndex] := Wrap64(v as int + 1);
      }
    }

    /** MoveToNextFrame: signal the current buffer's value, step to the next
        buffer, wait for it if the GPU has not reached its value, and give it
        the signalled value plus one. `signalOk` and `waitOk` are the
        HRESULTs of Signal and SetEventOnCompletion; `completed` is what the
        fence reports. */
    method MoveToNextFrame(signalOk: bool, completed: u64, waitOk: bool) returns (r: Outcome<Error>)
      requires Valid() && backBufferCount > 0
      modifies this`backBufferIndex, fenceValues
      ensures Valid()
      ensures !signalOk ==> r == Fail(DeviceFailure) && backBufferIndex == old(backBufferIndex)
      ensures signalOk ==> backBufferIndex == (old(backBufferIndex) + 1) % backBufferCount
      ensures r.Pass? <==> signalOk && (completed >= old(fenceValues[(backBufferIndex + 1) % backBufferCount]) || waitOk)
      ensures r.Fail? ==> r.error == DeviceFailure && fenceValues[..] == old(fenceValues[..])
      ensures r.Pass? ==> fenceValues[backBufferIndex] == Wrap64(old(fenceValues[backBufferIndex]) as int + 1)
      ensures r.Pass? ==> forall i :: 0 <= i < fenceValues.Length && i != backBufferIndex ==> fenceValues[i] == old(fenceValues[i])
      ensures old(CurrentIsNewest()) ==>
        old(fenceValues[(backBufferIndex + 1) % backBufferCount]) <= old(fenceValues[backBufferIndex])
      ensures r.Pass? && old(CurrentIsNewest()) && old(fenceValues[backBufferIndex]) as int + 1 < TWO_64 ==> CurrentIsNewest()
    {
      var currentFenceValue := fenceValues[backBufferIndex];
      if !signalOk {
        return Fail(DeviceFailure);
      }
      backBufferIndex := (backBufferIndex + 1) % backBufferCount;
      if completed < fenceValues[backBufferIndex] && !waitOk {
        return Fail(DeviceFailure);
      }
      fenceValues[backBufferIndex] := Wrap64(currentFenceValue as int + 1);
      r := Pass;
    }

    /** The bookkeeping of CreateWindowSizeDependentResources: without a
        window it throws; otherwise it waits for the GPU, gives every back
        buffer the current fence value, sizes the back buffers from the
        output rectangle (at least 1 by 1), and starts again at buffer 0.
        `hasWindow` says whether SetWindow, which lives in the header, has
        stored a window. */
    method CreateWindowSizeDependentResources(hasWindow: bool, gpuReady: bool) returns (r: Outcome<Error>)
      requires Valid()
      modifies this`backBufferIndex, this`swapChainFormat, this`scissorWidth, this`scissorHeight, fenceValues
      ensures Valid()
      ensures r.Fail? <==> !hasWindow
      ensures r.Fail? ==> r.error == NoWindow && unchanged(this) && fenceValues[..] == old(fenceValues[..])
      ensures r.Pass? ==> backBufferIndex == 0 && CurrentIsNewest()
      ensures r.Pass? ==> forall n :: 0 <= n < backBufferCount ==>
        fenceValues[n] == (if gpuReady then Wrap64(old(fenceValues[backBufferIndex]) as int + 1) else old(fenceValues[backBufferIndex]))
      ensures r.Pass? ==> forall n :: backBufferCount <= n < fenceValues.Length ==>
        fenceValues[n] == old(fenceValues[n]) || (n == old(backBufferIndex) && gpuReady)
      ensures r.Pass? ==> swapChainFormat == NoSrgb(backBufferFormat)
      ensures r.Pass? ==> scissorWidth == Extent(outputSize.left, outputSize.right)
      ensures r.Pass? ==> scissorHeight == Extent(outputSize.top, outputSize.bottom)
    {
      if !hasWindow {
        return Fail(NoWindow);
      }
      WaitForGpu(gpuReady);
      ghost var before := fenceValues[..];
      var current := fenceValues[backBufferIndex];
      var n := 0;
      while n < backBufferCount
        modifies fenceValues
        invariant n <= backBufferCount
        invariant forall j :: 0 <= j < n ==> fenceValues[j] == current
        invariant forall j :: n <= j < fenceValues.Length ==> fenceValues[j] == before[j]
        invariant fenceValues[backBufferIndex] == current
      {
        fenceValues[n] := fenceValues[backBufferIndex];
        n := n + 1;
      }
      swapChainFormat := NoSrgb(backBufferFormat);
      scissorWidth := Extent(outputSize.left, outputSize.right);
      scissorHeight := Extent(outputSize.top, outputSize.bottom);
      backBufferIndex := 0;
      r := Pass;
    }
  }

  /** The constructor: a back-buffer count above MAX_BACK_BUFFER_COUNT throws
      std::out_of_range. */
  method NewDeviceResources(maxCount: nat, backBufferFormat: nat, depthBufferFormat: nat, backBufferCount: u32, flags: Options)
    returns (r: Result<DeviceResources, Error>)
    requires 0 < maxCount < 0x8000_0000
    ensures r.Err? <==> backBufferCount > maxCount
    ensures r.Err? ==> r.error == OutOfRange
    ensures r.Ok? ==> fresh(r.value) && r.value.Valid() && r.value.backBufferCount == backBufferCount
    ensures r.Ok? ==> r.value.backBufferIndex == 0 && r.value.CurrentIsNewest()
  {
    if backBufferCount > maxCount {
      return Err(OutOfRange);
    }
    var d := new DeviceResources(maxCount, backBufferFormat, depthBufferFormat, backBufferCount, flags);
    r := Ok(d);
  }

  /** Under HDR the back buffer is always R10G10B10A2 and the requested
      format goes to the Game DVR swap chain; without HDR there is no Game
      DVR format. */
  lemma HdrFormats(d: DeviceResources, requested: nat, flags: Options)
    requires d.backBufferFormat == (if flags.enableHDR then R10G10B10A2_UNORM else requested)
    requires d.gameDvrFormat == (if flags.enableHDR then requested else UNKNOWN)
    ensures flags.enableHDR ==> NoSrgb(d.backBufferFormat) == R10G10B10A2_UNORM && d.gameDvrFormat == requested
    ensures !flags.enableHDR ==> NoSrgb(d.backBufferFormat) == NoSrgb(requested) && d.gameDvrFormat == UNKNOWN
  {
  }
}
