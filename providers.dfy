/**
 * The execution providers the layout model is asked to run on, in order of
 * preference, as the service and the command line build them from their
 * flags.
 */
module Providers {

  /** A signed 32-bit device id; any value, negative ones included, is passed on as given. */
  type DeviceId = d: int | -0x8000_0000 <= d < 0x8000_0000

  datatype Provider = Trt(deviceId: DeviceId) | Cuda(deviceId: DeviceId) | CoreMl(aneOnly: bool) | Cpu

  /** The provider flags of the command line / service arguments. */
  datatype Args = Args(trt: bool, cuda: bool, coreml: bool, useAne: bool, deviceId: DeviceId)

  /** Position of each provider kind in the list. */
  function Rank(p: Provider): nat
  {
    match p
    case Trt(_) => 0
    case Cuda(_) => 1
    case CoreMl(_) => 2
    case Cpu => 3
  }

  function Flag(b: bool): nat { if b then 1 else 0 }

  /**
   * `parse_ep_args`: TensorRT, CUDA and CoreML, each exactly when its flag
   * is set and in that order, the GPU ones on the requested device and
   * CoreML restricted to the neural engine as asked; CPU always last.
   */
  method ParseEpArgs(args: Args) returns (providers: seq<Provider>)
    ensures |providers| == 1 + Flag(args.trt) + Flag(args.cuda) + Flag(args.coreml)
    ensures providers[|providers| - 1] == Cpu
    ensures forall i, j :: 0 <= i < j < |providers| ==> Rank(providers[i]) < Rank(providers[j])
    ensures forall k :: 0 <= k < |providers| ==> match providers[k]
      case Trt(d) => args.trt && d == args.deviceId
      case Cuda(d) => args.cuda && d == args.deviceId
      case CoreMl(a) => args.coreml && a == args.useAne
      case Cpu => k == |providers| - 1
    ensures args.trt ==> Trt(args.deviceId) in providers
    ensures args.cuda ==> Cuda(args.deviceId) in providers
    ensures args.coreml ==> CoreMl(args.useAne) in providers
  {
    providers := [];
    if args.trt {
      providers := providers + [Trt(args.deviceId)];
    }
    if args.cuda {
      providers := providers + [Cuda(args.deviceId)];
    }
    if args.coreml {
      providers := providers + [CoreMl(args.useAne)];
    }
    providers := providers + [Cpu];
  }
}
