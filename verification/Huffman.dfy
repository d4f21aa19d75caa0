/** The Huffman library is foreign code: a pair of functions of which only losslessness is used. */
module Huffman {
  import opened Wire

  datatype Codec = Codec(compress: seq<byte> -> seq<byte>, decompress: seq<byte> -> Result<seq<byte>>) {
    ghost predicate Lossless() {
      forall x :: decompress(compress(x)) == Success(x) && (x != [] ==> compress(x) != [])
    }

    /** What was compressed is not read back from a part of it: the end of the data is coded, too. */
    ghost predicate Terminated() {
      forall x, n :: 0 <= n < |compress(x)| ==> decompress(compress(x)[..n]) != Success(x)
    }
  }
}
