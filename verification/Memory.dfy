// Buffers as the C library copies them.
module Memory {
  import opened Words

  // Exactly data was written at position at: everything else in the buffer is as before.
  ghost predicate Wrote(before: seq<byte>, after: seq<byte>, at: nat, data: seq<byte>) {
    && |after| == |before|
    && at + |data| <= |after|
    && after == before[..at] + data + before[at + |data|..]
  }

  // memcpy.
  method CopyBytes(dst: array<byte>, at: nat, src: seq<byte>)
    requires at + |src| <= dst.Length
    modifies dst
    ensures Wrote(old(dst[..]), dst[..], at, src)
  {
    forall i | 0 <= i < |src| {
      dst[at + i] := src[i];
    }
    assert dst[..] == old(dst[..])[..at] + src + old(dst[..])[at + |src|..];
  }

  lemma WroteNothing(s: seq<byte>, at: nat)
    requires at <= |s|
    ensures Wrote(s, s, at, [])
  {
  }

  lemma WroteMore(s0: seq<byte>, s1: seq<byte>, s2: seq<byte>, at: nat, d1: seq<byte>, d2: seq<byte>)
    requires Wrote(s0, s1, at, d1) && Wrote(s1, s2, at + |d1|, d2)
    ensures Wrote(s0, s2, at, d1 + d2)
  {
    assert s1[..at + |d1|] == s0[..at] + d1;
    assert s1[at + |d1| + |d2|..] == s0[at + |d1| + |d2|..];
    assert s2 == s0[..at] + (d1 + d2) + s0[at + |d1 + d2|..];
  }
}
