/**
 * The legacy byte transform of the `MQL5Client` reply and stream channels: a
 * pairwise run-length expansion followed by a shift of every byte down by 42.
 * Only the decoding direction exists in the client; `Compress` and
 * `EncodeString` below are the algebraic inverses, used to state round trips.
 */
module LegacyTransform {
  import opened Wrappers

  newtype byte = x: int | 0 <= x < 256

  /** The fixed offset of the shift cipher. */
  const Shift: int := 42

  datatype DecodeError = NegativeCodePoint(index: nat)  // `chr` of a negative number raises

  /**
   * `decode_string`: one character per byte, with code `byte - 42`; a byte
   * below 42 makes `chr` raise, at the first such byte.
   */
  function DecodeString(encoded: seq<byte>): (r: Result<string, DecodeError>)
    ensures r.Ok? <==> forall i :: 0 <= i < |encoded| ==> encoded[i] as int >= Shift
    ensures r.Ok? ==> (|r.value| == |encoded|
      && forall i :: 0 <= i < |encoded| ==> r.value[i] as int == encoded[i] as int - Shift)
    ensures r.Err? ==> (r.error.index < |encoded| && (encoded[r.error.index] as int) < Shift
      && forall i :: 0 <= i < r.error.index ==> encoded[i] as int >= Shift)
    decreases |encoded|
  {
    if |encoded| == 0 then Ok("")
    else if (encoded[0] as int) < Shift then Err(NegativeCodePoint(0))
    else match DecodeString(encoded[1..])
      case Ok(rest) => Ok([(encoded[0] as int - Shift) as char] + rest)
      case Err(NegativeCodePoint(k)) => Err(NegativeCodePoint(k + 1))
  }

  /** The inverse of the shift: each character code plus 42, for codes that fit a byte. */
  function EncodeString(text: string): (r: seq<byte>)
    requires forall i :: 0 <= i < |text| ==> text[i] as int + Shift < 256
    ensures |r| == |text|
  {
    seq(|text|, i requires 0 <= i < |text| => (text[i] as int + Shift) as byte)
  }

  /** `count` copies of `value`, as `bytes([value]) * count` builds them. */
  function Repeat(value: byte, count: nat): (r: seq<byte>)
    ensures |r| == count && forall i :: 0 <= i < count ==> r[i] == value
  {
    seq(count, _ => value)
  }

  /**
   * The run-length expansion: each byte at an even offset with a successor,
   * repeated successor times. Every output byte is a byte found at an even
   * offset of the input: the count bytes never reach the output.
   */
  function Expand(compressed: seq<byte>): (r: seq<byte>)
    ensures forall i :: 0 <= i < |r| ==> exists j :: 0 <= j < |compressed| && j % 2 == 0 && compressed[j] == r[i]
    decreases |compressed|
  {
    if |compressed| == 0 then []
    else if |compressed| == 1 then [compressed[0]]
    else
      var head := Repeat(compressed[0], compressed[1] as int);
      var tail := Expand(compressed[2..]);
      assert forall i :: 0 <= i < |tail| ==> exists j :: 0 <= j < |compressed| && j % 2 == 0 && compressed[j] == tail[i] by {
        forall i | 0 <= i < |tail|
          ensures exists j :: 0 <= j < |compressed| && j % 2 == 0 && compressed[j] == tail[i]
        {
          var k :| 0 <= k < |compressed[2..]| && k % 2 == 0 && compressed[2..][k] == tail[i];
          assert compressed[k + 2] == tail[i];
        }
      }
      assert forall i :: 0 <= i < |head| ==> compressed[0] == head[i];
      head + tail
  }

  /**
   * `uncompress_string`: the index `i` walks the input two bytes at a time;
   * the `isinstance(compressed_bytes[i+1], int)` test always holds for `bytes`,
   * so every byte with a successor is a value and the successor its count.
   */
  method UncompressString(compressed: seq<byte>) returns (uncompressed: seq<byte>)
    ensures uncompressed == Expand(compressed)
  {
    uncompressed := [];
    var i := 0;
    while i < |compressed|
      invariant 0 <= i <= |compressed|
      invariant i % 2 == 0 || i == |compressed|
      invariant uncompressed + Expand(compressed[i..]) == Expand(compressed)
      decreases |compressed| - i
    {
      var value := compressed[i];
      if i + 1 < |compressed| {
        var count := compressed[i + 1];
        assert compressed[i..][2..] == compressed[i + 2..];
        uncompressed := uncompressed + Repeat(value, count as int);
        i := i + 2;
      } else {
        uncompressed := uncompressed + [value];
        i := i + 1;
      }
    }
  }

  /**
   * The reply and stream pipelines: expand first, then shift-decode. When no
   * value byte is below 42 the reply decodes, to one character per expanded
   * byte: the sum of the counts, plus one for a final unpaired byte.
   */
  function DecodeReply(response: seq<byte>): (r: Result<string, DecodeError>)
    ensures (forall j :: 0 <= j < |response| && j % 2 == 0 ==> response[j] as int >= Shift) ==> r.Ok?
    ensures r.Ok? ==> |r.value| == OddSum(response) + |response| % 2
  {
    ExpandLength(response);
    DecodeString(Expand(response))
  }

  /** Sum of the bytes at odd offsets, accumulated from the end of the input. */
  function OddSum(s: seq<byte>): nat
  {
    if |s| == 0 then 0
    else OddSum(s[..|s| - 1]) + (if (|s| - 1) % 2 == 1 then s[|s| - 1] as nat else 0)
  }

  lemma {:induction false} OddSumFront(s: seq<byte>)
    requires |s| >= 2
    ensures OddSum(s) == s[1] as nat + OddSum(s[2..])
    decreases |s|
  {
    var n := |s|;
    if n == 2 {
      assert s[..1][..0] == [];
      assert s[2..] == [];
    } else {
      OddSumFront(s[..n - 1]);
      assert s[..n - 1][2..] == s[2..][..n - 3];
      assert s[..n - 1][1] == s[1];
    }
  }

  /** The output length is the sum of the count bytes plus one for a final unpaired byte. */
  lemma {:induction false} ExpandLength(compressed: seq<byte>)
    ensures |Expand(compressed)| == OddSum(compressed) + |compressed| % 2
    decreases |compressed|
  {
    if |compressed| == 1 {
      assert compressed[..0] == [];
    } else if |compressed| >= 2 {
      ExpandLength(compressed[2..]);
      OddSumFront(compressed);
    }
  }

  /** A value byte followed by the count 0 produces nothing. */
  lemma ZeroCountDrops(value: byte, rest: seq<byte>)
    ensures Expand([value, 0] + rest) == Expand(rest)
  {
    assert ([value, 0] + rest)[2..] == rest;
  }

  /** A final unpaired byte is copied once. */
  lemma {:induction false} UnpairedLastByte(compressed: seq<byte>, last: byte)
    requires |compressed| % 2 == 0
    ensures Expand(compressed + [last]) == Expand(compressed) + [last]
    decreases |compressed|
  {
    if |compressed| == 0 {
      assert compressed + [last] == [last];
    } else {
      UnpairedLastByte(compressed[2..], last);
      assert (compressed + [last])[2..] == compressed[2..] + [last];
    }
  }

  /**
   * The format cannot carry literal data: a two-byte input survives expansion
   * unchanged only when both bytes are 2.
   */
  lemma PairIsAmbiguous(a: byte, b: byte)
    ensures Expand([a, b]) == [a, b] <==> a == 2 && b == 2
  {
    var e := Expand([a, b]);
    assert [a, b][2..] == [];
    assert Expand([a, b][2..]) == [];
    assert e == Repeat(a, b as int);
    if e == [a, b] {
      assert |e| == 2 && e[1] == a;
    }
  }

  /** Length of the run of copies of `s[0]` that starts `s`, capped at 255 so it fits a count byte. */
  function RunLength(s: seq<byte>): (n: nat)
    requires |s| >= 1
    ensures 1 <= n <= |s| && n <= 255
    ensures forall i :: 0 <= i < n ==> s[i] == s[0]
  {
    RunFrom(s, 1)
  }

  function RunFrom(s: seq<byte>, k: nat): (n: nat)
    requires 1 <= k <= |s| && k <= 255
    requires forall i :: 0 <= i < k ==> s[i] == s[0]
    ensures k <= n <= |s| && n <= 255
    ensures forall i :: 0 <= i < n ==> s[i] == s[0]
    decreases |s| - k
  {
    if k < |s| && k < 255 && s[k] == s[0] then RunFrom(s, k + 1) else k
  }

  /** A run-length compressor in the format `Expand` reads: (value, count) pairs. */
  function Compress(s: seq<byte>): seq<byte>
    decreases |s|
  {
    if |s| == 0 then []
    else
      var n := RunLength(s);
      [s[0], n as byte] + Compress(s[n..])
  }

  /** The run at the front of `s` is its first `RunLength(s)` bytes. */
  lemma RunPrefix(s: seq<byte>)
    requires |s| >= 1
    ensures Repeat(s[0], RunLength(s)) == s[..RunLength(s)]
  {
  }

  /** Expanding a compressed text yields its first run, then the expansion of the rest. */
  lemma ExpandCompressStep(s: seq<byte>)
    requires |s| >= 1
    ensures Expand(Compress(s)) == Repeat(s[0], RunLength(s)) + Expand(Compress(s[RunLength(s)..]))
  {
    var n := RunLength(s);
    var rest := Compress(s[n..]);
    var c := Compress(s);
    assert c == [s[0], n as byte] + rest;
    assert c[0] == s[0] && c[1] as int == n && c[2..] == rest;
  }

  lemma TakeDrop(s: seq<byte>, n: nat)
    requires n <= |s|
    ensures s[..n] + s[n..] == s
  {
  }

  /** Compressing and then expanding gives back any byte sequence. */
  lemma {:induction false} ExpandCompress(s: seq<byte>)
    ensures Expand(Compress(s)) == s
    decreases |s|
  {
    if |s| > 0 {
      var n := RunLength(s);
      var tail := s[n..];
      ExpandCompressStep(s);
      ExpandCompress(tail);
      RunPrefix(s);
      TakeDrop(s, n);
    }
  }

  /** Shifting back down undoes the shift up. */
  lemma DecodeEncode(text: string)
    requires forall i :: 0 <= i < |text| ==> text[i] as int + Shift < 256
    ensures DecodeString(EncodeString(text)) == Ok(text)
  {
    var r := DecodeString(EncodeString(text));
    assert r.Ok?;
    assert |r.value| == |text|;
    assert forall i :: 0 <= i < |text| ==> r.value[i] as int == text[i] as int;
    assert r.value == text;
  }

  /** The whole pipeline: a text shifted up and compressed decodes back to itself. */
  lemma ReplyRoundTrip(text: string)
    requires forall i :: 0 <= i < |text| ==> text[i] as int + Shift < 256
    ensures DecodeReply(Compress(EncodeString(text))) == Ok(text)
  {
    ExpandCompress(EncodeString(text));
    DecodeEncode(text);
  }

  /** Any byte below 42, before or after expansion, makes the pipeline fail. */
  lemma DecodeReplyDomain(response: seq<byte>)
    ensures DecodeReply(response).Ok?
        <==> forall i :: 0 <= i < |Expand(response)| ==> Expand(response)[i] as int >= Shift
  {
  }
}
