/** Fixed-width integers and byte strings. */
module Bytes {
  type U8 = n: nat | n < 0x100
  type U32 = n: nat | n < 0x1_0000_0000
  type U64 = n: nat | n < 0x1_0000_0000_0000_0000
  type Bytes = seq<U8>
  type Bytes12 = b: seq<U8> | |b| == 12 witness seq(12, _ => 0)
  type Bytes16 = b: seq<U8> | |b| == 16 witness seq(16, _ => 0)
  type Bytes32 = b: seq<U8> | |b| == 32 witness seq(32, _ => 0)
  type Bytes48 = b: seq<U8> | |b| == 48 witness seq(48, _ => 0)
  type Bytes49 = b: seq<U8> | |b| == 49 witness seq(49, _ => 0)
  type Bytes64 = b: seq<U8> | |b| == 64 witness seq(64, _ => 0)
}
