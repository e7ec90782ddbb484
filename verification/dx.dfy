// The Direct3D, DXGI and Win32 constants the samples' code compares against
// (format, rotation and feature-level enumerators, HRESULT codes and API
// limits, with their values from the Windows SDK headers), and the small
// helpers both DeviceResources wrappers share.

module Dx {
  import opened Common

  // DXGI_FORMAT enumerators
  const UNKNOWN: nat := 0
  const R32G32B32A32_UINT: nat := 3
  const R32G32_UINT: nat := 17
  const R10G10B10A2_UNORM: nat := 24
  const R8G8B8A8_UNORM: nat := 28
  const R8G8B8A8_UNORM_SRGB: nat := 29
  const BC1_TYPELESS: nat := 70
  const BC1_UNORM: nat := 71
  const BC1_UNORM_SRGB: nat := 72
  const BC3_TYPELESS: nat := 76
  const BC3_UNORM: nat := 77
  const BC3_UNORM_SRGB: nat := 78
  const BC4_TYPELESS: nat := 79
  const BC4_UNORM: nat := 80
  const BC4_SNORM: nat := 81
  const BC5_TYPELESS: nat := 82
  const BC5_UNORM: nat := 83
  const BC5_SNORM: nat := 84
  const B8G8R8A8_UNORM: nat := 87
  const B8G8R8X8_UNORM: nat := 88
  const B8G8R8A8_UNORM_SRGB: nat := 91
  const B8G8R8X8_UNORM_SRGB: nat := 93

  // HRESULT values, as the unsigned 32-bit patterns
  const S_OK: nat := 0
  const E_FAIL: nat := 0x80004005
  const E_INVALIDARG: nat := 0x80070057
  const E_OUTOFMEMORY: nat := 0x8007000E
  const E_NOT_VALID_STATE: nat := 0x8007139F
  /** HRESULT_FROM_WIN32(ERROR_NOT_SUPPORTED) */
  const E_NOT_SUPPORTED: nat := 0x80070032

  /** D3D12_REQ_MIP_LEVELS */
  const REQ_MIP_LEVELS: nat := 15

  /** DXGI_MODE_ROTATION enumerators */
  const ROTATION_UNSPECIFIED: nat := 0
  const ROTATION_IDENTITY: nat := 1
  const ROTATE90: nat := 2
  const ROTATE180: nat := 3
  const ROTATE270: nat := 4

  // D3D_FEATURE_LEVEL enumerators
  const FEATURE_LEVEL_9_1: nat := 0x9100
  const FEATURE_LEVEL_9_2: nat := 0x9200
  const FEATURE_LEVEL_9_3: nat := 0x9300
  const FEATURE_LEVEL_10_0: nat := 0xa000
  const FEATURE_LEVEL_10_1: nat := 0xa100
  const FEATURE_LEVEL_11_0: nat := 0xb000
  const FEATURE_LEVEL_11_1: nat := 0xb100
  const FEATURE_LEVEL_12_0: nat := 0xc000
  const FEATURE_LEVEL_12_1: nat := 0xc100

  /** A RECT, four LONGs. */
  datatype Rect = Rect(left: i32, top: i32, right: i32, bottom: i32)

  /** `std::max<UINT>(hi - lo, 1)`: the LONG difference read as a UINT, and
      at least 1. A reversed rectangle gives a huge extent, not 1. */
  function Extent(lo: i32, hi: i32): (r: u32)
    ensures r >= 1
    ensures hi > lo ==> r == hi - lo
    ensures hi == lo ==> r == 1
    ensures hi < lo ==> r == TWO_32 + (hi - lo)
  {
    Wrap32Diff(hi - lo);
    Max(Wrap32(hi - lo), 1)
  }

  /** The three sRGB formats a swap chain cannot use, with their linear
      counterparts. */
  predicate IsSrgbSwapFormat(fmt: nat)
  {
    fmt == R8G8B8A8_UNORM_SRGB || fmt == B8G8R8A8_UNORM_SRGB || fmt == B8G8R8X8_UNORM_SRGB
  }

  /** The swap-chain format for a back-buffer format: the sRGB variant of
      RGBA, BGRA and BGRX mapped to its UNORM twin, any other format kept. */
  function NoSrgb(fmt: nat): (r: nat)
    ensures IsSrgbSwapFormat(fmt) <==> r != fmt
    ensures !IsSrgbSwapFormat(r)
    ensures fmt == R8G8B8A8_UNORM_SRGB ==> r == R8G8B8A8_UNORM
    ensures fmt == B8G8R8A8_UNORM_SRGB ==> r == B8G8R8A8_UNORM
    ensures fmt == B8G8R8X8_UNORM_SRGB ==> r == B8G8R8X8_UNORM
  {
    if fmt == R8G8B8A8_UNORM_SRGB then R8G8B8A8_UNORM
    else if fmt == B8G8R8A8_UNORM_SRGB then B8G8R8A8_UNORM
    else if fmt == B8G8R8X8_UNORM_SRGB then B8G8R8X8_UNORM
    else fmt
  }

  /** Stripping sRGB twice is stripping it once. */
  lemma NoSrgbIdempotent(fmt: nat)
    ensures NoSrgb(NoSrgb(fmt)) == NoSrgb(fmt)
  {
  }
}
