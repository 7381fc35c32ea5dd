// The caller's buffers, shared by every filter of the decompressor.
module XzBuffers {
  import opened Words

  datatype XzRet = XzOk | XzStreamEnd | XzDataError

  // The input is only read, so it is a sequence: input[inPos..] is what is still unread.
  // output[outPos..outSize] is the room left for output.
  class XzBuf {
    var input: seq<byte>
    var inPos: nat
    var output: array<byte>
    var outPos: nat
    var outSize: nat

    ghost predicate Valid()
      reads this
    {
      inPos <= |input| && outPos <= outSize <= output.Length
    }

    constructor (input: seq<byte>, output: array<byte>)
      ensures Valid() && this.input == input && this.output == output
      ensures inPos == 0 && outPos == 0 && outSize == output.Length
    {
      this.input := input;
      this.inPos := 0;
      this.output := output;
      this.outPos := 0;
      this.outSize := output.Length;
    }
  }
}
