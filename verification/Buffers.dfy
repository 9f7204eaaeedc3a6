/** Character buffers that are written over in place. */
module Buffers {

  /** A buffer with `text` written over it from position `start` on. */
  function Overwrite(buf: string, start: nat, text: string): (b: string)
    requires start + |text| <= |buf|
    ensures |b| == |buf|
  {
    buf[..start] + text + buf[start + |text|..]
  }

  lemma OverwriteNone(buf: string, start: nat)
    requires start <= |buf|
    ensures Overwrite(buf, start, "") == buf
  {
  }

  lemma OverwriteNext(buf: string, start: nat, text: string, ch: char)
    requires start + |text| < |buf|
    ensures Overwrite(buf, start, text)[start + |text| := ch] == Overwrite(buf, start, text + [ch])
  {
  }

  lemma OverwriteTwice(buf: string, text: string, more: string)
    requires |text| + |more| <= |buf|
    ensures Overwrite(Overwrite(buf, 0, text), |text|, more) == Overwrite(buf, 0, text + more)
  {
  }

  lemma ConcatAssociates(a: string, b: string, c: string)
    ensures (a + b) + c == a + (b + c)
  {
  }
}
