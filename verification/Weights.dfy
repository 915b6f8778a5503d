/** What a weight resolver answers (`mir_to_compat.rs`). */
module Weights {
  import opened Wrappers
  import opened Bytes

  datatype Dtype = Fp16 | Fp32 | Int32 | UInt8 | Int4 | UInt4 | E4M3 | E5M2 | UInt16

  datatype WeightData = WeightData(data: seq<byte>, shape: seq<nat>, dtype: Dtype)

  /** A resolver looks a name up and answers with a tensor or not at all. */
  type Resolver = string -> Option<WeightData>
}
