/** The byte frames the host writes to the Tiny Tapeout board (select a
    project, set the inputs) and the decoding of the bytes it reads back. The
    serial port itself is not modelled: frames are byte sequences. */
module Serial {
  import opened PyText
  import opened Acquisition

  newtype byte = x: int | 0 <= x < 256

  /** Command bytes. */
  const SetProjectCmd: byte := 0x01
  const SetInputCmd: byte := 0x02
  const ReadOutputCmd: byte := 0x03

  /** The project id is sent as at least this many binary digits. */
  const ProjectIdDigits := 9

  /** `ser.read(8)`: at most this many bytes are read back. */
  const OutputLen := 8

  ghost predicate IsAscii(s: string)
  {
    forall k :: 0 <= k < |s| ==> s[k] as int < 128
  }

  /** `s.encode()` for an ASCII string: one byte per character. */
  function Encode(s: string): (r: seq<byte>)
    requires IsAscii(s)
    ensures |r| == |s|
    ensures forall k :: 0 <= k < |s| ==> r[k] as int == s[k] as int
  {
    seq(|s|, k requires 0 <= k < |s| => s[k] as int as byte)
  }

  /** `bin(project_id)[2:].rjust(9, '0')`. */
  function ProjectPayload(id: int): (s: string)
    ensures IsAscii(s)
    ensures |s| == if |BinBody(id)| >= ProjectIdDigits then |BinBody(id)| else ProjectIdDigits
  {
    var body := BinBody(id);
    var s := Rjust(body, ProjectIdDigits, '0');
    assert IsAscii(s) by {
      BinBodyIsAscii(id);
      var pad := |s| - |body|;
      forall k | 0 <= k < |s|
        ensures s[k] as int < 128
      {
        if k >= pad {
          assert s[k] == s[pad..][k - pad] == body[k - pad];
        } else {
          assert s[k] == '0';
        }
      }
    }
    s
  }

  /** `bin(n)[2:]` holds only '0', '1' and the stray 'b'. */
  lemma BinBodyIsAscii(n: int)
    ensures IsAscii(BinBody(n))
  {
    var m := if n >= 0 then n else -n;
    var d := BinDigits(m);
    assert forall k :: 0 <= k < |d| ==> d[k] as int < 128;
    if n < 0 {
      assert forall k :: 1 <= k < |BinBody(n)| ==> BinBody(n)[k] == d[k - 1];
    }
  }

  /** Value of a payload of ASCII binary digits, most significant first
      (Python's `int(s, 2)` on such a payload). */
  function BinaryValue(bs: seq<byte>): int
  {
    ValueMsb(seq(|bs|, k requires 0 <= k < |bs| => bs[k] as int - 48))
  }

  /** The bytes `set_project(project_id)` writes. */
  function ProjectFrame(id: int): (r: seq<byte>)
    ensures |r| >= 1 + ProjectIdDigits && r[0] == SetProjectCmd
    ensures |r| == 1 + |ProjectPayload(id)|
    ensures id >= 0 ==> forall k :: 1 <= k < |r| ==> r[k] == 48 || r[k] == 49
  {
    var payload := ProjectPayload(id);
    var r := [SetProjectCmd] + Encode(payload);
    assert id >= 0 ==> forall k :: 1 <= k < |r| ==> r[k] == 48 || r[k] == 49 by {
      if id >= 0 {
        PayloadIsBinary(id);
        forall k | 1 <= k < |r|
          ensures r[k] == 48 || r[k] == 49
        {
          assert r[k] as int == payload[k - 1] as int;
        }
      }
    }
    r
  }

  /** The payload of a non-negative id holds only '0' and '1'. */
  lemma PayloadIsBinary(id: nat)
    ensures forall k :: 0 <= k < |ProjectPayload(id)| ==> ProjectPayload(id)[k] == '0' || ProjectPayload(id)[k] == '1'
  {
    var body := BinDigits(id);
    var s := ProjectPayload(id);
    assert s == Rjust(body, ProjectIdDigits, '0');
    var pad := |s| - |body|;
    forall k | 0 <= k < |s|
      ensures s[k] == '0' || s[k] == '1'
    {
      if k >= pad {
        assert s[k] == s[pad..][k - pad] == body[k - pad];
      }
    }
  }

  lemma {:induction false} LeadingZerosKeepValue(z: nat, bits: seq<int>)
    ensures ValueMsb(seq(z, _ => 0) + bits) == ValueMsb(bits)
    decreases |bits|
  {
    if bits == [] {
      ZerosHaveNoValue(z);
      assert seq(z, _ => 0) + bits == seq(z, _ => 0);
    } else {
      var init := bits[..|bits| - 1];
      LeadingZerosKeepValue(z, init);
      var all := seq(z, _ => 0) + bits;
      assert all[..|all| - 1] == seq(z, _ => 0) + init;
    }
  }

  lemma {:induction false} ZerosHaveNoValue(z: nat)
    ensures ValueMsb(seq(z, _ => 0)) == 0
  {
    if z > 0 {
      ZerosHaveNoValue(z - 1);
      assert seq(z, _ => 0)[..z - 1] == seq(z - 1, _ => 0);
    }
  }

  lemma DigitBitsOfZeros(n: nat)
    ensures DigitBits(seq(n, _ => '0')) == seq(n, _ => 0)
  {
  }

  /** Left-padding with '0' prepends zero bits. */
  lemma PaddedDigits(body: string, width: int)
    ensures |Rjust(body, width, '0')| >= |body|
    ensures DigitBits(Rjust(body, width, '0'))
              == seq(|Rjust(body, width, '0')| - |body|, _ => 0) + DigitBits(body)
  {
    if |body| >= width {
      assert seq(0, _ => 0) + DigitBits(body) == DigitBits(body);
    } else {
      var z := width - |body|;
      assert Rjust(body, width, '0') == seq(z, _ => '0') + body;
      DigitBitsAppend(seq(z, _ => '0'), body);
      DigitBitsOfZeros(z);
    }
  }

  /** The encoded bytes of binary digits, less '0', are the digits' bits. */
  lemma EncodedDigits(payload: string)
    requires forall k :: 0 <= k < |payload| ==> payload[k] == '0' || payload[k] == '1'
    ensures IsAscii(payload)
    ensures seq(|payload|, k requires 0 <= k < |payload| => Encode(payload)[k] as int - 48) == DigitBits(payload)
  {
    var e := Encode(payload);
    forall k | 0 <= k < |payload|
      ensures e[k] as int - 48 == DigitBits(payload)[k]
    {
      assert e[k] as int == payload[k] as int;
      if payload[k] == '1' {
        assert payload[k] as int == 49;
      } else {
        assert payload[k] as int == 48;
      }
    }
  }

  /** Reading the `set_project` payload as binary gives back the project id. */
  lemma ProjectFrameRoundTrip(id: nat)
    ensures BinaryValue(ProjectFrame(id)[1..]) == id
  {
    var body := BinDigits(id);
    var payload := ProjectPayload(id);
    PaddedDigits(body, ProjectIdDigits);
    PayloadIsBinary(id);
    EncodedDigits(payload);
    assert ProjectFrame(id)[1..] == Encode(payload);
    var z := |payload| - |body|;
    assert DigitBits(payload) == seq(z, _ => 0) + Bitfield(id);
    LeadingZerosKeepValue(z, Bitfield(id));
    BitfieldRoundTrip(id);
  }

  /** The digit count of the `set_project` payload: nine, or more when the id
      needs more binary places. */
  lemma PayloadDigits(id: nat)
    ensures |ProjectFrame(id)| == 1 + (if |BinDigits(id)| >= ProjectIdDigits then |BinDigits(id)| else ProjectIdDigits)
  {
  }

  /** The payload is never truncated: ids below 2^9 take exactly nine digits,
      larger ids take `bit_length` digits. */
  lemma ProjectFrameLength(id: nat)
    ensures |ProjectFrame(id)| == 1 + (if BitLength(id) > ProjectIdDigits then BitLength(id) else ProjectIdDigits)
    ensures id < 512 <==> |ProjectFrame(id)| == 1 + ProjectIdDigits
  {
    PayloadDigits(id);
    DigitCount(id);
  }

  lemma DigitCount(id: nat)
    ensures |BinDigits(id)| == if id == 0 then 1 else BitLength(id)
    ensures |BinDigits(id)| <= ProjectIdDigits <==> id < 512
  {
    BitfieldLength(id);
    BitfieldFits(id, ProjectIdDigits);
    Pow2Nine();
  }

  lemma Pow2Nine()
    ensures Pow2(ProjectIdDigits) == 512
  {
  }

  /** `"".join(str(n) for n in input)`. */
  function JoinStr(xs: seq<int>): (s: string)
    ensures forall k :: 0 <= k < |s| ==> s[k] == '-' || '0' <= s[k] <= '9'
    decreases |xs|
  {
    if xs == [] then "" else Str(xs[0]) + JoinStr(xs[1..])
  }

  ghost predicate AllDigits(xs: seq<int>)
  {
    forall k :: 0 <= k < |xs| ==> 0 <= xs[k] <= 9
  }

  lemma {:induction false} JoinDigits(xs: seq<int>)
    requires AllDigits(xs)
    ensures |JoinStr(xs)| == |xs|
    ensures forall k :: 0 <= k < |xs| ==> JoinStr(xs)[k] as int == 48 + xs[k]
    decreases |xs|
  {
    if xs != [] {
      JoinDigits(xs[1..]);
    }
  }

  /** The bytes `set_input(input)` writes. */
  function InputFrame(xs: seq<int>): (r: seq<byte>)
    ensures |r| >= 1 && r[0] == SetInputCmd
    ensures AllDigits(xs) ==> |r| == 1 + |xs| && forall k :: 0 <= k < |xs| ==> r[k + 1] as int == 48 + xs[k]
  {
    var s := JoinStr(xs);
    assert AllDigits(xs) ==> |s| == |xs| && forall k :: 0 <= k < |xs| ==> s[k] as int == 48 + xs[k] by {
      if AllDigits(xs) {
        JoinDigits(xs);
      }
    }
    [SetInputCmd] + Encode(s)
  }

  /** One `read_output()` exchange: the bytes written, then the values
      decoded from the bytes read back. */
  datatype Exchange = Exchange(request: seq<byte>, values: seq<int>)

  /** `read_output()` after the board sent `incoming`: it writes the single
      command byte 0x03, then decodes the first (at most) 8 bytes it reads,
      each minus the code of '0'. */
  function ReadOutput(incoming: seq<byte>): (r: Exchange)
    ensures r.request == [ReadOutputCmd]
    ensures |r.values| == if |incoming| < OutputLen then |incoming| else OutputLen
    ensures forall k :: 0 <= k < |r.values| ==> r.values[k] == incoming[k] as int - 48
  {
    var got := if |incoming| < OutputLen then incoming else incoming[..OutputLen];
    Exchange([ReadOutputCmd], seq(|got|, k requires 0 <= k < |got| => got[k] as int - 48))
  }

  /** The board tells the three requests apart by their first byte: no two of
      them start alike, and only `read_output` sends no payload. */
  lemma FramesAreTaggedByCommand(id: int, xs: seq<int>, incoming: seq<byte>)
    ensures ProjectFrame(id)[0] != InputFrame(xs)[0]
    ensures ProjectFrame(id)[0] != ReadOutput(incoming).request[0]
    ensures InputFrame(xs)[0] != ReadOutput(incoming).request[0]
    ensures |ReadOutput(incoming).request| == 1 < |ProjectFrame(id)|
  {
  }

  /** Decoding a `set_input` payload of digits with the `read_output` rule gives
      back the input list. */
  lemma InputFrameRoundTrip(xs: seq<int>)
    requires AllDigits(xs) && |xs| <= OutputLen
    ensures ReadOutput(InputFrame(xs)[1..]).values == xs
  {
  }
}
