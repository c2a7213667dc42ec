/** Speech items, the add-on's synchronous audio commands and their duration
    and sample arithmetic (PpBeepCommand, PpWaveFileCommand, PpChainCommand). */
module Commands {

  datatype Option<+T> = None | Some(value: T)

  /** The exceptions the modelled code raises. */
  datatype Error =
    | UnknownRuleType(ruleType: string)   // ValueError in getSpeechCommand
    | UnsupportedSampleWidth(bits: int)   // RuntimeError for non-16-bit wave files
    | EmptyProsodyName                    // IndexError on prosodyName[0]
    | SampleOutOfRange                    // struct.error when packing a scaled sample

  datatype Result<+T> = Ok(value: T) | Err(error: Error)

  type Positive = x: int | x > 0 witness 1

  /** The argument a prosody command is built with: an offset, a multiplier
      (None when the rule stores neither), or nothing (the command that restores). */
  datatype ProsodyChange = Offset(offset: int) | Multiplier(factor: Option<real>) | Restore

  datatype Command =
    | Beep(hz: int, length: int, left: int, right: int)
    | WaveFile(fileName: string, startAdjustment: int, endAdjustment: int, volume: int,
               nframes: nat, rate: Positive, channels: Positive, buf: seq<int>)
    | Chain(subcommands: seq<Command>)
    | Prosody(name: string, change: ProsodyChange)
    | Break(time: int)
    | HostCommand(tag: nat)   // any other command of the host's speech sequence

  /** A speech sequence is made of strings and commands. */
  datatype Item = Text(text: string) | Cmd(command: Command)

  /** isinstance(c, PpSynchronousCommand) */
  predicate IsSynchronous(c: Command) {
    c.Beep? || c.WaveFile? || c.Chain?
  }

  predicate IsSyncItem(x: Item) {
    x.Cmd? && IsSynchronous(x.command)
  }

  /** A command whose getDuration can be evaluated: a beep, a wave file, or a
      chain whose members are all such commands. */
  predicate Schedulable(c: Command) {
    match c
    case Beep(_, _, _, _) => true
    case WaveFile(_, _, _, _, _, _, _, _) => true
    case Chain(subs) => forall k | 0 <= k < |subs| :: Schedulable(subs[k])
    case _ => false
  }

  predicate AllSchedulable(cs: seq<Command>) {
    forall k | 0 <= k < |cs| :: Schedulable(cs[k])
  }

  /** int(x / b) in Python for b > 0: division truncating toward zero. */
  function TruncDiv(a: int, b: int): (q: int)
    requires b > 0
    ensures 0 <= a ==> 0 <= q * b <= a < q * b + b
    ensures a < 0 ==> a <= q * b <= 0 && q * b - b < a
  {
    if a >= 0 then
      FloorDivBounds(a, b);
      a / b
    else
      var p := (-a) / b;
      FloorDivBounds(-a, b);
      NegMul(p, b);
      -p
  }

  lemma FloorDivBounds(a: nat, b: int)
    requires b > 0
    ensures 0 <= (a / b) * b <= a < (a / b) * b + b
  {
    assert a == (a / b) * b + a % b;
  }

  lemma NegMul(p: int, b: int)
    ensures (-p) * b == -(p * b)
  {
  }

  /** int(1000 * frames / rate): the clip length in whole milliseconds. */
  function ClipMillis(nframes: nat, rate: Positive): (m: nat)
    ensures m * rate <= 1000 * nframes < (m + 1) * rate
  {
    1000 * nframes / rate
  }

  /** PpWaveFileCommand.getDuration: the untrimmed clip length less both
      adjustments, never below zero. */
  function WaveDuration(nframes: nat, rate: Positive, startAdjustment: int, endAdjustment: int): (d: nat)
    ensures d >= ClipMillis(nframes, rate) - startAdjustment - endAdjustment
    ensures d == 0 || d == ClipMillis(nframes, rate) - startAdjustment - endAdjustment
  {
    var result := ClipMillis(nframes, rate) - startAdjustment - endAdjustment;
    if result < 0 then 0 else result
  }

  /** getDuration of the three synchronous command classes. */
  function Duration(c: Command): (d: int)
    requires Schedulable(c)
    ensures c.Beep? ==> d == c.length
    ensures c.WaveFile? ==> d >= 0
    decreases c, 1
  {
    match c
    case Beep(_, length, _, _) => length
    case WaveFile(_, startAdj, endAdj, _, nframes, rate, _, _) => WaveDuration(nframes, rate, startAdj, endAdj)
    case Chain(subs) => SumDurations(subs)
  }

  /** sum(subcommand.getDuration() for subcommand in subs) */
  function SumDurations(cs: seq<Command>): (r: int)
    requires AllSchedulable(cs)
    ensures cs == [] ==> r == 0
    ensures |cs| == 1 ==> r == Duration(cs[0])
    decreases cs, 0
  {
    if cs == [] then 0 else Duration(cs[0]) + SumDurations(cs[1..])
  }

  /** The chain's duration is additive over concatenation of its members. */
  lemma {:induction false} SumDurationsAppend(a: seq<Command>, b: seq<Command>)
    requires AllSchedulable(a) && AllSchedulable(b)
    ensures AllSchedulable(a + b)
    ensures SumDurations(a + b) == SumDurations(a) + SumDurations(b)
    decreases |a|
  {
    if a != [] {
      assert (a + b)[1..] == a[1..] + b;
      SumDurationsAppend(a[1..], b);
    } else {
      assert a + b == b;
    }
  }

  /** Adding one more member to a chain adds exactly that member's duration. */
  lemma SumDurationsSnoc(cs: seq<Command>, k: nat)
    requires AllSchedulable(cs) && k < |cs|
    ensures AllSchedulable(cs[..k]) && AllSchedulable(cs[..k + 1])
    ensures SumDurations(cs[..k + 1]) == SumDurations(cs[..k]) + Duration(cs[k])
  {
    assert cs[..k + 1] == cs[..k] + [cs[k]];
    assert [cs[k]][1..] == [];
    SumDurationsAppend(cs[..k], [cs[k]]);
  }

  /** A chain of commands that each take no negative time takes no negative
      time, and at least as long as any of its members. */
  lemma {:induction false} SumDurationsBounds(cs: seq<Command>, k: nat)
    requires AllSchedulable(cs) && k < |cs|
    requires forall j | 0 <= j < |cs| :: Duration(cs[j]) >= 0
    ensures SumDurations(cs) >= Duration(cs[k]) >= 0
    decreases |cs|
  {
    if k > 0 {
      SumDurationsBounds(cs[1..], k - 1);
    } else if |cs| > 1 {
      SumDurationsBounds(cs[1..], 0);
    }
  }

  /** Each sample becomes int(sample * volume / 100). */
  function Scaled(samples: seq<int>, volume: int): (r: seq<int>)
    ensures |r| == |samples|
  {
    seq(|samples|, i requires 0 <= i < |samples| => TruncDiv(samples[i] * volume, 100))
  }

  /** start * rate // 1000: the whole frames that play in the first start milliseconds. */
  function FramesIn(start: nat, rate: Positive): (f: nat)
    ensures f * 1000 <= start * rate < (f + 1) * 1000
  {
    start * rate / 1000
  }

  /** The number of leading samples a start adjustment drops: the frames of a
      positive adjustment times the channel count, or none for a non-positive one. */
  function TrimmedSamples(startAdjustment: int, rate: Positive, channels: Positive): (r: nat)
  {
    if startAdjustment > 0 then FramesIn(startAdjustment, rate) * channels else 0
  }

  /** unpacked[pos:] with Python's clamping of an out-of-range start. */
  function DropPrefix(s: seq<int>, pos: nat): (r: seq<int>)
    ensures |r| == if pos <= |s| then |s| - pos else 0
    ensures forall j | 0 <= j < |r| :: r[j] == s[pos + j]
  {
    if pos <= |s| then s[pos..] else []
  }

  predicate IsInt16(x: int) {
    -0x8000 <= x < 0x8000
  }

  /** The buffer a wave command keeps: scaled, then trimmed at the start. */
  function WaveBuffer(samples: seq<int>, volume: int, startAdjustment: int, rate: Positive, channels: Positive): (r: seq<int>)
  {
    DropPrefix(Scaled(samples, volume), TrimmedSamples(startAdjustment, rate, channels))
  }

  lemma WaveBufferAt(samples: seq<int>, volume: int, startAdjustment: int, rate: Positive, channels: Positive, j: nat)
    requires j < |WaveBuffer(samples, volume, startAdjustment, rate, channels)|
    ensures var pos := TrimmedSamples(startAdjustment, rate, channels);
      pos + j < |samples| &&
      WaveBuffer(samples, volume, startAdjustment, rate, channels)[j] == TruncDiv(samples[pos + j] * volume, 100)
  {
  }

  /** A volume between 0 and 100 keeps a 16-bit sample within 16 bits, and
      never makes it louder. */
  lemma ScaleKeepsRange(x: int, volume: int)
    requires IsInt16(x) && 0 <= volume <= 100
    ensures IsInt16(TruncDiv(x * volume, 100))
    ensures x >= 0 ==> 0 <= TruncDiv(x * volume, 100) <= x
    ensures x < 0 ==> x <= TruncDiv(x * volume, 100) <= 0
  {
    var q := TruncDiv(x * volume, 100);
    if x >= 0 {
      MulMonotone(x, volume, 100);
      assert 0 <= q * 100 <= x * 100;
    } else {
      MulMonotone(-x, volume, 100);
      assert x * 100 <= q * 100 <= 0;
    }
  }

  lemma MulMonotone(a: nat, b: nat, c: nat)
    requires b <= c
    ensures 0 <= a * b <= a * c
  {
    assert a * c == a * b + a * (c - b);
  }

  /** PpWaveFileCommand.__init__ on the decoded sample list: scales every
      sample in place, then drops the leading samples a positive start
      adjustment asks for. */
  method ScaleAndTrim(unpacked: array<int>, volume: int, startAdjustment: int, rate: Positive, channels: Positive)
    returns (buf: seq<int>)
    modifies unpacked
    ensures unpacked[..] == Scaled(old(unpacked[..]), volume)
    ensures buf == WaveBuffer(old(unpacked[..]), volume, startAdjustment, rate, channels)
  {
    var n := unpacked.Length;
    for i := 0 to n
      invariant forall j | 0 <= j < i :: unpacked[j] == TruncDiv(old(unpacked[j]) * volume, 100)
      invariant forall j | i <= j < n :: unpacked[j] == old(unpacked[j])
    {
      unpacked[i] := TruncDiv(unpacked[i] * volume, 100);
    }
    buf := unpacked[..];
    if startAdjustment > 0 {
      var pos := startAdjustment * rate / 1000;
      pos := pos * channels;
      buf := if pos <= |buf| then buf[pos..] else [];
    }
  }

  /** What wave.open reports of a file: sample width in bytes, frame count,
      frame rate, channel count, and the frames decoded as 16-bit samples. */
  datatype WaveData = WaveData(sampWidth: int, nframes: nat, rate: Positive, channels: Positive, samples: seq<int>)

  predicate AllInt16(s: seq<int>) {
    forall j | 0 <= j < |s| :: IsInt16(s[j])
  }

  /** PpWaveFileCommand(fileName, startAdjustment, endAdjustment, volume) for a
      file whose header and samples are data: a sample width other than two
      bytes raises, and so does packing a scaled sample that no longer fits in
      16 bits (the samples are not clipped). */
  function NewWaveFile(fileName: string, data: WaveData, startAdjustment: int, endAdjustment: int, volume: int)
    : (r: Result<Command>)
    ensures data.sampWidth != 2 ==> r == Err(UnsupportedSampleWidth(data.sampWidth * 8))
    ensures data.sampWidth == 2 ==>
      (r.Ok? <==> AllInt16(WaveBuffer(data.samples, volume, startAdjustment, data.rate, data.channels)))
    ensures r.Ok? ==>
      r.value == WaveFile(fileName, startAdjustment, endAdjustment, volume, data.nframes, data.rate, data.channels,
                          WaveBuffer(data.samples, volume, startAdjustment, data.rate, data.channels))
    ensures r.Err? ==> r.error.UnsupportedSampleWidth? || r.error == SampleOutOfRange
  {
    if data.sampWidth != 2 then
      Err(UnsupportedSampleWidth(data.sampWidth * 8))
    else
      var buf := WaveBuffer(data.samples, volume, startAdjustment, data.rate, data.channels);
      if AllInt16(buf) then
        Ok(WaveFile(fileName, startAdjustment, endAdjustment, volume, data.nframes, data.rate, data.channels, buf))
      else
        Err(SampleOutOfRange)
  }

  /** With a volume from 0 to 100, loading a 16-bit file never fails, and its
      duration is the untrimmed length less the adjustments, floored at zero. */
  lemma NewWaveFileSucceeds(fileName: string, data: WaveData, startAdjustment: int, endAdjustment: int, volume: int)
    requires data.sampWidth == 2 && AllInt16(data.samples) && 0 <= volume <= 100
    ensures NewWaveFile(fileName, data, startAdjustment, endAdjustment, volume).Ok?
    ensures var c := NewWaveFile(fileName, data, startAdjustment, endAdjustment, volume).value;
      Duration(c) == WaveDuration(data.nframes, data.rate, startAdjustment, endAdjustment)
  {
    var buf := WaveBuffer(data.samples, volume, startAdjustment, data.rate, data.channels);
    forall j | 0 <= j < |buf| ensures IsInt16(buf[j]) {
      WaveBufferAt(data.samples, volume, startAdjustment, data.rate, data.channels, j);
      var pos := TrimmedSamples(startAdjustment, data.rate, data.channels);
      ScaleKeepsRange(data.samples[pos + j], volume);
    }
  }

  /** The strings of a speech sequence, concatenated. */
  function Texts(items: seq<Item>): (r: string)
  {
    if items == [] then [] else (if items[0].Text? then items[0].text else []) + Texts(items[1..])
  }

  /** The commands of a speech sequence, in order. */
  function CommandsIn(items: seq<Item>): (r: seq<Command>)
  {
    if items == [] then [] else (if items[0].Cmd? then [items[0].command] else []) + CommandsIn(items[1..])
  }

  lemma {:induction false} TextsAppend(a: seq<Item>, b: seq<Item>)
    ensures Texts(a + b) == Texts(a) + Texts(b)
    ensures CommandsIn(a + b) == CommandsIn(a) + CommandsIn(b)
    decreases |a|
  {
    if a == [] {
      assert a + b == b;
    } else {
      TailAppend(a, b);
      TextsAppend(a[1..], b);
      var t := if a[0].Text? then a[0].text else [];
      var c := if a[0].Cmd? then [a[0].command] else [];
      assert Texts(a + b) == t + (Texts(a[1..]) + Texts(b));
      AppendAssoc(t, Texts(a[1..]), Texts(b));
      assert CommandsIn(a + b) == c + (CommandsIn(a[1..]) + CommandsIn(b));
      AppendAssoc(c, CommandsIn(a[1..]), CommandsIn(b));
    }
  }

  // ---- sequence identities, proved once out of any larger context ----

  lemma TailAppend<T>(a: seq<T>, b: seq<T>)
    requires a != []
    ensures (a + b)[0] == a[0] && (a + b)[1..] == a[1..] + b
  {
  }

  lemma SplitJoin<T>(s: seq<T>, k: nat)
    requires k <= |s|
    ensures s[..k] + s[k..] == s
  {
  }

  lemma AppendAssoc<T>(a: seq<T>, b: seq<T>, c: seq<T>)
    ensures a + (b + c) == a + b + c
  {
  }

  lemma ShiftIndex<T>(a: seq<T>, b: seq<T>, i: nat)
    requires |a| <= i < |a| + |b|
    ensures (a + b)[i] == b[i - |a|]
  {
  }
}
