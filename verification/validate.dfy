/** is_utf8: whether a byte string, after an optional byte order mark,
    decodes step by step without a failing step. */
module Validate {
  import opened Unicode
  import opened Utf8Codec
  import opened Transcode

  /** Where validation starts: just past a byte order mark EF BB BF, which
      is looked for only in input of more than three bytes. */
  function BomEnd(s: seq<Byte>): (k: nat)
    ensures k == 3 <==> |s| > 3 && s[..3] == [0xEF, 0xBB, 0xBF]
    ensures k != 3 ==> k == 0
  {
    if |s| > 3 && s[0] == 0xEF && s[1] == 0xBB && s[2] == 0xBF then 3 else 0
  }

  /** The source's loop: decode from the start position on and give up at
      the first Illegal or Incomplete. */
  method IsUtf8(str: seq<Byte>) returns (ok: bool)
    ensures ok <==> Clean(Bytes(str), BomEnd(str), Native)
  {
    var begin := 0;
    if |str| > 3 {
      if str[0] == 0xEF && str[1] == 0xBB && str[2] == 0xBF {
        begin := 3;
      }
    }
    while begin != |str|
      invariant begin <= |str|
      invariant Clean(Bytes(str), begin, Native) == Clean(Bytes(str), BomEnd(str), Native)
      decreases |str| - begin
    {
      var d := Decode(str, begin);
      if d.cp == Incomplete || d.cp == Illegal {
        return false;
      }
      begin := d.next;
    }
    return true;
  }

  /** Skipping the byte order mark never turns an accepted string into a
      rejected one: a mark that decodes is the three-byte U+FEFF. */
  lemma SkipsBom(s: seq<Byte>)
    requires Clean(Bytes(s), 0, Native)
    ensures Clean(Bytes(s), BomEnd(s), Native)
  {
    if BomEnd(s) == 3 {
      assert TrailLength(s[0]) == 2;
    }
  }

  /** The UTF-8 encoding of any sequence of scalar values is accepted. */
  lemma AcceptsEncodedText(cs: seq<Codepoint>)
    requires forall i | 0 <= i < |cs| :: IsValidCodepoint(cs[i])
    ensures var s := EncodeAll(Utf8, cs, Native).bytes;
      Clean(Bytes(s), BomEnd(s), Native)
  {
    CleanOfEncodeAll(Utf8, cs, Native);
    SkipsBom(EncodeAll(Utf8, cs, Native).bytes);
  }

  /** A lead byte where a continuation byte belongs is accepted: the two
      bytes C3 C3 pass, read as U+00C3. */
  lemma AcceptsLeadAsContinuation()
    ensures Clean(Bytes([0xC3, 0xC3]), BomEnd([0xC3, 0xC3]), Native)
  {
    LeadByteTakenAsContinuation();
  }

  /** Yet no sequence of values, valid or not, encodes to C3 C3: the
      accepted input is not UTF-8. */
  lemma LeadLeadEncodesNothing(cs: seq<Codepoint>)
    ensures EncodeAll(Utf8, cs, Native) != Bytes([0xC3, 0xC3])
  {
    if cs != [] {
      var r := Encode(cs[0]);
      var s := r + EncodeAll(Utf8, cs[1..], Native).bytes;
      assert EncodeAll(Utf8, cs, Native) == Bytes(s);
      assert s[0] == r[0];
      if |r| >= 2 {
        assert s[1] == r[1];
      }
    }
  }
}
