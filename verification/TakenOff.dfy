/** What is at the front of a byte string that a header, a body or a block was taken from. */
module TakenOff {
  import opened Bytes
  import opened Framing

  lemma HeaderTaken(whole: Bytes, h: Header, rest: Bytes)
    requires whole == HeaderBytes(h) + rest
    ensures whole[..HEADER_SIZE] == HeaderBytes(h) && whole[HEADER_SIZE..] == rest
    ensures ParseHeader(whole[..HEADER_SIZE]) == h
  {
    HeaderRoundTrip(h);
  }

  lemma BodyTaken(whole: Bytes, body: Bytes, rest: Bytes)
    ensures whole == body + rest ==> whole[..|body|] == body && whole[|body|..] == rest
  {
  }

  lemma BlockFilled(data: Bytes, block: Bytes, n: nat, block': Bytes, data': Bytes)
    requires n <= |block| && |block'| == |block| && block'[n..] == block[n..]
    requires data == block'[..n] + data'
    ensures block' == data[..n] + block[n..] && data' == data[n..]
  {
    assert block' == block'[..n] + block'[n..];
  }
}
