/**
 * lwcap: captures one Livewire RTP stream into a WAV file. Each datagram
 * read from the RTP socket loses its 12-byte fixed RTP header (section 5.1
 * of RFC 3550); the rest, 24-bit big-endian samples, is repacked into
 * 32-bit little-endian words with the sample in the top three bytes and
 * handed to the sound file, or written raw to standard output when no file
 * is named. The datagrams read and the result of the write to standard
 * output are parameters; opening the sound file is not modelled.
 */
module Lwcap {
  import opened QtText
  import opened Variant
  import HostAddress

  /** The RTP fixed header, and the largest datagram read. */
  const HeaderBytes: nat := 12
  const MaxDatagram: nat := 1500
  /** The repacking buffer holds 1440 four-byte samples. */
  const BufferSamples: nat := 1440
  /** The sound file: WAV, 24-bit PCM, 48000 samples a second. */
  const SampleRate: nat := 48000
  const DefaultChannels: nat := 2
  const RtpPort: nat := 5004

  // -----------------------------------------------------------------------
  // Options
  // -----------------------------------------------------------------------

  datatype Options = Options(channels: nat, duration: nat, filename: string,
                             mcast: Option<nat>, iface: Option<nat>)

  /** What the option loop and the checks after it lead to: a capture, or
      an exit with status 256 and a message. exit() passes on only the low
      eight bits of that status, so a shell sees these refusals as status 0,
      a success. */
  datatype Setup = Ready(opts: Options) | Refused(message: string)

  const Known: set<string> := {"--channels", "--duration", "--filename", "--multicast-address", "--interface-address"}

  /** The options before any switch is read. */
  function Defaults(): Options
  {
    Options(DefaultChannels, 0, "", None, None)
  }

  /** One pass of the option loop: the options with switch i applied, or
      the message the program exits with. */
  function ApplySwitch(o: Options, key: string, value: string): (r: Setup)
    ensures r.Ready? ==> key in Known
  {
    if key == "--channels" then
      match ToUInt(value, 10)
      case Some(n) => Ready(o.(channels := n))
      case None => Refused("lwcap: invalid --channels\n")
    else if key == "--duration" then
      match ToUInt(value, 10)
      case Some(n) => Ready(o.(duration := n))
      case None => Refused("lwcap: invalid --duration\n")
    else if key == "--filename" then Ready(o.(filename := value))
    else if key == "--multicast-address" then
      match HostAddress.Parse(value)
      case Some(a) => Ready(o.(mcast := Some(a)))
      case None => Refused("lwcap: invalid --multicast-address\n")
    else if key == "--interface-address" then
      match HostAddress.Parse(value)
      case Some(a) => Ready(o.(iface := Some(a)))
      case None => Refused("lwcap: invalid --interface-address\n")
    else Refused("lwcap: unknown option\n")
  }

  /** The option loop over the first n switches. */
  function ApplyAll(keys: seq<string>, values: seq<string>, n: nat): (r: Setup)
    requires n <= |keys| == |values|
    ensures r.Ready? ==> forall i :: 0 <= i < n ==> keys[i] in Known
  {
    if n == 0 then Ready(Defaults())
    else
      match ApplyAll(keys, values, n - 1)
      case Refused(m) => Refused(m)
      case Ready(o) => ApplySwitch(o, keys[n - 1], values[n - 1])
  }

  /** The constructor's option handling, ending with the two required
      addresses. */
  function Configure(keys: seq<string>, values: seq<string>): (r: Setup)
    requires |keys| == |values|
    ensures r.Ready? ==>
      (r.opts.mcast.Some? && r.opts.iface.Some? && forall i :: 0 <= i < |keys| ==> keys[i] in Known)
  {
    match ApplyAll(keys, values, |keys|)
    case Refused(m) => Refused(m)
    case Ready(o) =>
      if o.mcast.None? then Refused("lwcap: no --multicast-address specified\n")
      else if o.iface.None? then Refused("lwcap: no --interface-address specified\n")
      else Ready(o)
  }

  /** The option loop as written, stopping at the first refusal. */
  method ConfigureLoop(keys: seq<string>, values: seq<string>) returns (r: Setup)
    requires |keys| == |values|
    ensures r == Configure(keys, values)
  {
    var o := Defaults();
    var i := 0;
    while i < |keys|
      invariant 0 <= i <= |keys|
      invariant ApplyAll(keys, values, i) == Ready(o)
    {
      var step := ApplySwitch(o, keys[i], values[i]);
      if step.Refused? {
        RefusalSticks(keys, values, i + 1, |keys|);
        return step;
      }
      o := step.opts;
      i := i + 1;
    }
    if o.mcast.None? {
      return Refused("lwcap: no --multicast-address specified\n");
    }
    if o.iface.None? {
      return Refused("lwcap: no --interface-address specified\n");
    }
    return Ready(o);
  }

  /** Once a switch is refused, the loop's outcome is that refusal. */
  lemma {:induction false} RefusalSticks(keys: seq<string>, values: seq<string>, i: nat, n: nat)
    requires 1 <= i <= n <= |keys| == |values| && ApplyAll(keys, values, i).Refused?
    ensures ApplyAll(keys, values, n) == ApplyAll(keys, values, i)
    decreases n - i
  {
    if n > i {
      RefusalSticks(keys, values, i, n - 1);
    }
  }

  /** A switch the program does not know ends it, whatever came before. */
  lemma UnknownSwitchRefused(keys: seq<string>, values: seq<string>, k: nat)
    requires k < |keys| == |values| && keys[k] !in Known
    ensures Configure(keys, values).Refused?
  {
  }

  /** Without --channels the file gets the default two channels. */
  lemma {:induction false} ChannelsDefault(keys: seq<string>, values: seq<string>, n: nat)
    requires n <= |keys| == |values| && "--channels" !in keys[..n]
    ensures ApplyAll(keys, values, n).Ready? ==> ApplyAll(keys, values, n).opts.channels == DefaultChannels
  {
    if n > 0 {
      assert keys[..n - 1] == keys[..n][..n - 1];
      assert keys[n - 1] == keys[..n][n - 1];
      ChannelsDefault(keys, values, n - 1);
    }
  }

  // -----------------------------------------------------------------------
  // Repacking
  // -----------------------------------------------------------------------

  /** The four output bytes for input sample i: a zero low byte, then the
      sample's three bytes in reverse order. */
  function Sample(data: seq<byte>, i: nat): (r: seq<byte>)
    requires 3 * i + 3 <= |data|
    ensures |r| == 4
  {
    [0, data[3 * i + 2], data[3 * i + 1], data[3 * i]]
  }

  /** The first n samples repacked. */
  function RepackedUpTo(data: seq<byte>, n: nat): (r: seq<byte>)
    requires 3 * n <= |data|
    ensures |r| == 4 * n
  {
    if n == 0 then [] else RepackedUpTo(data, n - 1) + Sample(data, n - 1)
  }

  /** Every whole sample of data repacked; a trailing partial sample is
      dropped. */
  function Repacked(data: seq<byte>): (r: seq<byte>)
    ensures |r| == 4 * (|data| / 3)
  {
    RepackedUpTo(data, |data| / 3)
  }

  /** The inverse: the first n four-byte words back to three-byte samples. */
  function UnpackedUpTo(pcm: seq<byte>, n: nat): (r: seq<byte>)
    requires 4 * n <= |pcm|
    ensures |r| == 3 * n
  {
    if n == 0 then []
    else
      var w := 4 * (n - 1);
      UnpackedUpTo(pcm, n - 1) + [pcm[w + 3], pcm[w + 2], pcm[w + 1]]
  }

  /** Repacking loses nothing of the whole samples: unpacking gives them
      back, and every word's low byte is zero. */
  lemma {:induction false} RepackRoundTrip(data: seq<byte>, n: nat)
    requires 3 * n <= |data|
    ensures UnpackedUpTo(RepackedUpTo(data, n), n) == data[..3 * n]
    ensures forall i :: 0 <= i < n ==> RepackedUpTo(data, n)[4 * i] == 0
  {
    LowBytesZero(data, n);
    if n > 0 {
      RepackRoundTrip(data, n - 1);
      var p := RepackedUpTo(data, n);
      var q := RepackedUpTo(data, n - 1);
      assert p[..4 * (n - 1)] == q;
      UnpackedPrefix(p, q, n - 1);
      assert data[..3 * n] == data[..3 * (n - 1)] + [data[3 * n - 3], data[3 * n - 2], data[3 * n - 1]];
    }
  }

  lemma {:induction false} LowBytesZero(data: seq<byte>, n: nat)
    requires 3 * n <= |data|
    ensures forall i :: 0 <= i < n ==> RepackedUpTo(data, n)[4 * i] == 0
  {
    if n > 0 {
      LowBytesZero(data, n - 1);
      var p := RepackedUpTo(data, n);
      var q := RepackedUpTo(data, n - 1);
      assert p[..4 * (n - 1)] == q;
      forall i | 0 <= i < n
        ensures p[4 * i] == 0
      {
        if i < n - 1 {
          assert p[4 * i] == q[4 * i];
        }
      }
    }
  }

  /** Unpacking looks only at the words it unpacks. */
  lemma {:induction false} UnpackedPrefix(p: seq<byte>, q: seq<byte>, n: nat)
    requires 4 * n <= |q| <= |p| && p[..|q|] == q
    ensures UnpackedUpTo(p, n) == UnpackedUpTo(q, n)
  {
    if n > 0 {
      var w := 4 * (n - 1);
      assert p[w + 1] == q[w + 1] && p[w + 2] == q[w + 2] && p[w + 3] == q[w + 3];
      UnpackedPrefix(p, q, n - 1);
    }
  }

  /** The sample value a 32-bit little-endian word carries is the 24-bit
      big-endian input sample shifted up by eight bits. */
  function LittleEndian32(w: seq<byte>): nat
    requires |w| == 4
  {
    ((w[3] as nat * 256 + w[2]) * 256 + w[1]) * 256 + w[0]
  }

  function BigEndian24(s: seq<byte>): nat
    requires |s| == 3
  {
    (s[0] as nat * 256 + s[1]) * 256 + s[2]
  }

  lemma {:induction false} WordCarriesSample(data: seq<byte>, n: nat, i: nat)
    requires 3 * n <= |data| && i < n
    ensures RepackedUpTo(data, n)[4 * i..4 * i + 4] == Sample(data, i)
    ensures LittleEndian32(Sample(data, i)) == BigEndian24(data[3 * i..3 * i + 3]) * 256
  {
    if i < n - 1 {
      WordCarriesSample(data, n - 1, i);
      assert RepackedUpTo(data, n)[4 * i..4 * i + 4] == RepackedUpTo(data, n - 1)[4 * i..4 * i + 4];
    }
  }

  // -----------------------------------------------------------------------
  // WritePcm24 and readyReadData
  // -----------------------------------------------------------------------

  /** What one call hands on: raw bytes to standard output (and whether a
      failure is reported), or repacked words and a frame count to the
      sound file. */
  datatype Written = ToStdout(raw: seq<byte>, failureReported: bool) | ToFile(pcm: seq<byte>, frames: int)

  /** The frame count handed to the sound file for `bytes` payload bytes.
      As written it is bytes/6 whatever the channel count; the evident
      intent is the number of whole frames of `channels` samples. */
  function Frames(bytes: int, channels: nat, b: Build): int
    requires b == Corrected ==> channels > 0
  {
    match b
    case AsWritten => CDiv(bytes, 6)
    case Corrected => if bytes < 0 then 0 else (bytes / 3) / channels
  }

  /** Whether the write to standard output is reported as failed, given
      what write() returned. As written any result but 1 is reported. */
  function StdoutFailure(written: int, bytes: int, b: Build): bool
  {
    match b
    case AsWritten => written != 1
    case Corrected => written != bytes
  }

  /** WritePcm24(data, bytes): `written` is what write() returns. */
  method WritePcm24(data: seq<byte>, bytes: int, toFile: bool, channels: nat, written: int, b: Build)
    returns (w: Written)
    requires bytes <= |data| && bytes <= 3 * BufferSamples && (toFile ==> channels > 0)
    ensures !toFile ==> w == ToStdout(if bytes > 0 then data[..bytes] else [], StdoutFailure(written, bytes, b))
    ensures toFile ==> w == ToFile(if bytes > 0 then Repacked(data[..bytes]) else [], Frames(bytes, channels, b))
  {
    if !toFile {
      return ToStdout(if bytes > 0 then data[..bytes] else [], StdoutFailure(written, bytes, b));
    }
    var pcm := new byte[4 * BufferSamples];
    var n := CDiv(bytes, 3);
    if n <= 0 {
      return ToFile([], Frames(bytes, channels, b));
    }
    RepackInto(pcm, data, n);
    RepackedOfPrefix(data, bytes, n);
    return ToFile(pcm[..4 * n], Frames(bytes, channels, b));
  }

  /** The repacking loop: sample i of data into word i of pcm. */
  method RepackInto(pcm: array<byte>, data: seq<byte>, n: nat)
    requires 3 * n <= |data| && 4 * n <= pcm.Length
    modifies pcm
    ensures pcm[..4 * n] == RepackedUpTo(data, n)
  {
    var i := 0;
    while i < n
      invariant 0 <= i <= n
      invariant pcm[..4 * i] == RepackedUpTo(data, i)
    {
      ghost var before := pcm[..4 * i];
      pcm[4 * i] := 0;
      pcm[4 * i + 1] := data[3 * i + 2];
      pcm[4 * i + 2] := data[3 * i + 1];
      pcm[4 * i + 3] := data[3 * i];
      assert pcm[..4 * i] == before;
      assert pcm[..4 * i + 4] == pcm[..4 * i] + Sample(data, i);
      i := i + 1;
    }
  }

  /** The samples of a prefix are those of the whole. */
  lemma {:induction false} RepackedOfPrefix(data: seq<byte>, bytes: int, n: nat)
    requires 0 < bytes <= |data| && n == bytes / 3
    ensures Repacked(data[..bytes]) == RepackedUpTo(data, n)
  {
    PrefixSamples(data, data[..bytes], n);
  }

  lemma {:induction false} PrefixSamples(data: seq<byte>, pre: seq<byte>, n: nat)
    requires 3 * n <= |pre| <= |data| && pre == data[..|pre|]
    ensures RepackedUpTo(pre, n) == RepackedUpTo(data, n)
  {
    if n > 0 {
      PrefixSamples(data, pre, n - 1);
      assert Sample(pre, n - 1) == Sample(data, n - 1);
    }
  }

  /** The payload of a datagram as read (at most 1500 bytes): its bytes
      after the RTP header. The length passed on is n - 12, negative for a
      datagram shorter than the header. */
  function Payload(datagram: seq<byte>): (r: (seq<byte>, int))
    ensures r.1 <= |r.0| && r.1 <= MaxDatagram - HeaderBytes
  {
    var d := if |datagram| > MaxDatagram then datagram[..MaxDatagram] else datagram;
    (if |d| > HeaderBytes then d[HeaderBytes..] else [], |d| - HeaderBytes)
  }

  /** A datagram never overflows the repacking buffer. */
  lemma PayloadFitsBuffer(datagram: seq<byte>)
    ensures Payload(datagram).1 <= 3 * BufferSamples
    ensures Payload(datagram).1 > 0 ==> 4 * (Payload(datagram).1 / 3) <= 4 * BufferSamples
  {
  }

  /** What one datagram becomes: its payload written raw to standard
      output, or repacked for the sound file. */
  function Handled(datagram: seq<byte>, toFile: bool, channels: nat, written: int, b: Build): Written
    requires toFile ==> channels > 0
  {
    var (data, bytes) := Payload(datagram);
    if toFile then ToFile(if bytes > 0 then Repacked(data[..bytes]) else [], Frames(bytes, channels, b))
    else ToStdout(if bytes > 0 then data[..bytes] else [], StdoutFailure(written, bytes, b))
  }

  /** readyReadData: the datagrams waiting, read until one comes back empty
      (readDatagram returns 0 or less); `writes[k]` is what write() returns
      for the k-th. */
  method ReadyRead(datagrams: seq<seq<byte>>, toFile: bool, channels: nat, writes: seq<int>, b: Build)
    returns (out: seq<Written>)
    requires (toFile ==> channels > 0) && |writes| == |datagrams|
    ensures |out| <= |datagrams|
    ensures forall k :: 0 <= k < |out| ==> datagrams[k] != []
    ensures |out| < |datagrams| ==> datagrams[|out|] == []
    ensures forall k :: 0 <= k < |out| ==> out[k] == Handled(datagrams[k], toFile, channels, writes[k], b)
  {
    out := [];
    var k := 0;
    while k < |datagrams| && datagrams[k] != []
      invariant 0 <= k <= |datagrams| && |out| == k
      invariant forall j :: 0 <= j < k ==> datagrams[j] != []
      invariant forall j :: 0 <= j < k ==> out[j] == Handled(datagrams[j], toFile, channels, writes[j], b)
    {
      var w := HandleDatagram(datagrams[k], toFile, channels, writes[k], b);
      out := out + [w];
      k := k + 1;
    }
  }

  /** The body of the read loop for one datagram: its payload passed to
      writePcm24. */
  method HandleDatagram(datagram: seq<byte>, toFile: bool, channels: nat, written: int, b: Build)
    returns (w: Written)
    requires toFile ==> channels > 0
    ensures w == Handled(datagram, toFile, channels, written, b)
  {
    var (data, bytes) := Payload(datagram);
    w := WritePcm24(data, bytes, toFile, channels, written, b);
  }

  // -----------------------------------------------------------------------
  // The frame count and the stdout check
  // -----------------------------------------------------------------------

  /** As written, the sound file reads bytes/6 frames of `channels` samples
      each: for one channel it takes only half of the samples repacked, for
      four channels twice as many as were repacked. */
  lemma FramesAsWritten(k: nat)
    ensures Frames(6 * k, 1, AsWritten) * 1 == k && (6 * k) / 3 == 2 * k
    ensures Frames(6 * k, 4, AsWritten) * 4 == 4 * k
  {
  }

  /** Corrected, the frames read never exceed the samples repacked and
      leave fewer than one frame of them unread. */
  lemma FramesCorrected(bytes: int, channels: nat)
    requires channels > 0
    ensures var f := Frames(bytes, channels, Corrected);
      var filled := if bytes < 0 then 0 else bytes / 3;
      0 <= f && f * channels <= filled && filled - f * channels < channels
  {
  }

  /** As written, a write of every byte of a payload longer than one byte
      is reported as a failure; corrected, only a short or failed write is. */
  lemma StdoutCheck(bytes: int)
    requires bytes > 1
    ensures StdoutFailure(bytes, bytes, AsWritten)
    ensures !StdoutFailure(bytes, bytes, Corrected)
    ensures forall n :: n != bytes ==> StdoutFailure(n, bytes, Corrected)
  {
  }
}
