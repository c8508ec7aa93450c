/** The ADC task: de-interleave, take the median, filter, look up, publish. */
module IoAdc {
  import opened CTypes
  import opened MedianNetwork
  import opened AdcFilter
  import opened NtcLookup
  import opened NtcLaws
  import opened MeasureNtc
  import opened AdcRun

  const REG_T_0_CHANNEL: nat := 1

  /** What one call of adc_read does: it fails, or fills the sample buffer. */
  datatype AdcRead = Failed | Done(samples: seq<int16>)

  /** The reads the task gets before the first failure, which ends it. */
  function Good(conversions: seq<AdcRead>): (h: seq<seq<int16>>)
    ensures |h| <= |conversions|
  {
    if conversions == [] || conversions[0].Failed? then []
    else [conversions[0].samples] + Good(conversions[1..])
  }

  /** After n successful reads the history has n entries, and one more exactly when
      another read follows and succeeds. */
  lemma {:induction false} GoodSoFar(conversions: seq<AdcRead>, n: nat)
    requires n <= |conversions| && forall i | 0 <= i < n :: conversions[i].Done?
    ensures |Good(conversions)| >= n
    ensures forall i | 0 <= i < n :: Good(conversions)[i] == conversions[i].samples
    ensures if n < |conversions| && conversions[n].Done?
            then |Good(conversions)| > n && Good(conversions)[n] == conversions[n].samples
            else |Good(conversions)| == n
  {
    if n == 0 {
    } else {
      GoodSoFar(conversions[1..], n - 1);
    }
  }

  /** The 16-bit word published for a filter state. */
  function Published(c: Curve, f: int): uint16
    requires WellScaled(c)
  {
    ToUint16(Encode(ReadingOf(c, f)))
  }

  /** Whether a word means a reading: the sentinel outside the table, else the temperature,
      two's complement. */
  predicate Means(word: uint16, r: Reading) {
    match r
    case Over => word == 0x7002
    case Under => word == 0x7001
    case Celsius(t) => ToInt16(word) == t
  }

  lemma PublishedExactly(c: Curve, f: int)
    requires Descending(c)
    ensures Means(Published(c, f), ReadingOf(c, f))
  {
    var r := ReadingOf(c, f);
    if r.Celsius? {
      LookupInRange(c, ToUint16(f));
      WordMeans(r.t);
    }
  }

  lemma WordMeans(t: int16)
    ensures Means(ToUint16(t), Celsius(t))
  {
  }

  class AdcTask {
    const channels: uint8
    const channelSeq: seq<uint8>
    const sampleBuffer: array<int16>
    const adcValueT: array<uint16>
    const mbBufMain: array<uint16>
    const sensor: Sensor

    constructor (channelSeq: seq<uint8>, mbBufMain: array<uint16>, sensor: Sensor)
      requires 1 <= |channelSeq| < 0x100
      ensures this.channelSeq == channelSeq && this.mbBufMain == mbBufMain && this.sensor == sensor
      ensures channels == |channelSeq| && fresh(sampleBuffer) && fresh(adcValueT)
      ensures sampleBuffer.Length == MEASUREMENTS * channels && adcValueT.Length == channels
      ensures sensor.Valid() && sensor.table != mbBufMain
              && (forall i | 0 <= i < |channelSeq| :: channelSeq[i] + 1 < mbBufMain.Length)
              && (forall i, j | 0 <= i < j < |channelSeq| :: channelSeq[i] != channelSeq[j])
              ==> Valid()
    {
      channels := |channelSeq|;
      this.channelSeq := channelSeq;
      this.mbBufMain := mbBufMain;
      this.sensor := sensor;
      sampleBuffer := new int16[MEASUREMENTS * |channelSeq|](_ => 0);
      adcValueT := new uint16[|channelSeq|](_ => 0);
    }

    /** The register that shows a channel. */
    function Register(ch: nat): nat
      requires ch < |channelSeq|
    {
      channelSeq[ch] + REG_T_0_CHANNEL
    }

    ghost predicate Valid()
      reads this, sensor
    {
      && channels >= 1 && |channelSeq| == channels
      && sampleBuffer.Length == MEASUREMENTS * channels
      && adcValueT.Length == channels
      && adcValueT != mbBufMain && sensor.table != mbBufMain && sensor.table != adcValueT
      && (forall i | 0 <= i < channels :: Register(i) < mbBufMain.Length)
      && (forall i, j | 0 <= i < j < channels :: Register(i) != Register(j))
      && sensor.Valid()
    }

    /** A table has been built, with at least one step of at least one degree. */
    ghost predicate Ready()
      reads this, sensor, sensor.table
    {
      Valid() && WellScaled(sensor.Current())
    }

    /** io_getADCval: the median of the nine samples of a channel. */
    method GetAdcVal(nch: int16) returns (v: int16)
      requires Valid() && 0 <= nch < channels
      ensures v == MedianOf(Samples(sampleBuffer[..], channels, nch))
    {
      var p := new int16[9];
      var i: int16, addr: int16 := 0, nch;
      while i < 9
        invariant 0 <= i <= 9 && addr == Address(channels, nch, i)
        invariant forall k | 0 <= k < i :: p[k] == Samples(sampleBuffer[..], channels, nch)[k]
      {
        AddressInBuffer(channels, nch, i);
        p[i] := sampleBuffer[addr];
        i, addr := i + 1, addr + channels;
      }
      assert p[..] == Samples(sampleBuffer[..], channels, nch);
      ResultIsMedianOf(p[..]);
      RunNetwork(p);
      v := p[4];
    }

    /** A channel shows the same word in both places, and if the table descends it is
        the reading of the filter state f. */
    ghost predicate ShowsReading(i: nat, f: int)
      requires Ready() && i < channels
      reads this, sensor, sensor.table, adcValueT, mbBufMain
    {
      && adcValueT[i] == mbBufMain[Register(i)]
      && (Descending(sensor.Current()) ==> adcValueT[i] == Published(sensor.Current(), f))
    }

    /** Which register that is, and what both places then mean. */
    lemma ShownExactly(i: nat, f: int)
      requires Ready() && i < channels && ShowsReading(i, f)
      ensures channelSeq[i] + 1 < mbBufMain.Length && mbBufMain[channelSeq[i] + 1] == adcValueT[i]
      ensures Descending(sensor.Current()) ==> Means(adcValueT[i], ReadingOf(sensor.Current(), f))
    {
      assert Register(i) == channelSeq[i] + 1 < mbBufMain.Length;
      if Descending(sensor.Current()) {
        PublishedExactly(sensor.Current(), f);
      }
    }

    ghost predicate Shows(f: seq<int16>, n: nat)
      requires Ready() && n <= |f| && n <= channels
      reads this, sensor, sensor.table, adcValueT, mbBufMain
    {
      forall i | 0 <= i < n :: ShowsReading(i, f[i])
    }

    /** The lines common to both loops: look the state up and publish it. */
    method Publish(i: nat, f: int16)
      requires Ready() && i < channels
      modifies adcValueT, mbBufMain
      ensures Ready() && sensor.Current() == old(sensor.Current())
      ensures ShowsReading(i, f)
      ensures forall j | 0 <= j < channels && j != i :: adcValueT[j] == old(adcValueT[j])
      ensures forall r | 0 <= r < mbBufMain.Length && r != Register(i) :: mbBufMain[r] == old(mbBufMain[r])
    {
      var t := sensor.CalcTemperature(ToUint16(f));
      adcValueT[i] := ToUint16(t);
      mbBufMain[Register(i)] := adcValueT[i];
    }

    /** One pass over the channels.  The first pass starts the filters at the medians,
        every other pass takes one filter step. */
    method Pass(filter: array<int16>, first: bool)
      requires Ready() && filter.Length == channels && filter != sampleBuffer
      modifies filter, adcValueT, mbBufMain
      ensures Ready() && sensor.Current() == old(sensor.Current())
      ensures forall i | 0 <= i < channels ::
        var median := MedianOf(Samples(sampleBuffer[..], channels, i));
        filter[i] == if first then median else FilterStep(old(filter[i]), median)
      ensures Shows(filter[..], channels)
      ensures forall r | 0 <= r < mbBufMain.Length && (forall i | 0 <= i < channels :: r != Register(i)) ::
        mbBufMain[r] == old(mbBufMain[r])
    {
      var i := 0;
      while i < channels
        invariant 0 <= i <= channels && Ready() && sensor.Current() == old(sensor.Current())
        invariant forall k | 0 <= k < i ::
          var median := MedianOf(Samples(sampleBuffer[..], channels, k));
          filter[k] == if first then median else FilterStep(old(filter[k]), median)
        invariant forall k | i <= k < channels :: filter[k] == old(filter[k])
        invariant Shows(filter[..], i)
        invariant forall r | 0 <= r < mbBufMain.Length && (forall i | 0 <= i < channels :: r != Register(i)) ::
          mbBufMain[r] == old(mbBufMain[r])
      {
        var v := GetAdcVal(i);
        filter[i] := if first then v else FilterStep(filter[i], v);
        Publish(i, filter[i]);
        i := i + 1;
      }
    }

    /** The filters hold what the history so far gives. */
    ghost predicate Tracks(filter: seq<int16>, h: seq<seq<int16>>)
      requires Reads(h, channels)
    {
      h != [] ==> |filter| == channels && forall i | 0 <= i < channels :: filter[i] == FilterAfter(h, channels, i)
    }

    /** One turn of either loop: a successful read, then a pass. */
    method Turn(filter: array<int16>, samples: seq<int16>, first: bool, ghost h: seq<seq<int16>>)
      requires Ready() && filter.Length == channels && filter != sampleBuffer
      requires |samples| == MEASUREMENTS * channels && Reads(h, channels) && Tracks(filter[..], h)
      requires first <==> h == []
      modifies filter, sampleBuffer, adcValueT, mbBufMain
      ensures Ready() && sensor.Current() == old(sensor.Current())
      ensures Reads(h + [samples], channels) && Tracks(filter[..], h + [samples])
      ensures Shows(filter[..], channels)
      ensures forall r | 0 <= r < mbBufMain.Length && (forall i | 0 <= i < channels :: r != Register(i)) ::
        mbBufMain[r] == old(mbBufMain[r])
    {
      ghost var before := filter[..];
      Fill(samples);
      Pass(filter, first);
      ghost var h' := h + [samples];
      assert h'[..|h|] == h;
      forall i | 0 <= i < channels ensures filter[i] == FilterAfter(h', channels, i) {
        assert |h| > 0 ==> before[i] == FilterAfter(h, channels, i);
      }
    }

    /** io_adc_task over the reads it is given, up to the first failure: after them every
        channel shows the reading of FilterAfter, and no other register has changed. */
    method Task(conversions: seq<AdcRead>)
      requires Ready() && Reads(Good(conversions), channels)
      modifies sampleBuffer, adcValueT, mbBufMain
      ensures Ready() && sensor.Current() == old(sensor.Current())
      ensures var h := Good(conversions);
        if h == [] then adcValueT[..] == old(adcValueT[..]) && mbBufMain[..] == old(mbBufMain[..])
        else forall i | 0 <= i < channels :: ShowsReading(i, FilterAfter(h, channels, i))
      ensures forall r | 0 <= r < mbBufMain.Length && (forall i | 0 <= i < channels :: r != Register(i)) ::
        mbBufMain[r] == old(mbBufMain[r])
    {
      ghost var h := Good(conversions);
      GoodSoFar(conversions, 0);
      if |conversions| == 0 || conversions[0].Failed? {
        return;
      }
      var filter := new int16[channels];
      Turn(filter, conversions[0].samples, true, []);
      assert [] + [conversions[0].samples] == h[..1];
      var n := 1;
      while n < |conversions|
        invariant 1 <= n <= |conversions| && n <= |h|
        invariant forall i | 0 <= i < n :: conversions[i].Done?
        invariant Ready() && sensor.Current() == old(sensor.Current())
        invariant Reads(h[..n], channels) && Tracks(filter[..], h[..n]) && Shows(filter[..], channels)
        invariant forall r | 0 <= r < mbBufMain.Length && (forall i | 0 <= i < channels :: r != Register(i)) ::
          mbBufMain[r] == old(mbBufMain[r])
      {
        GoodSoFar(conversions, n);
        if conversions[n].Failed? {
          assert h[..n] == h;
          return;
        }
        Turn(filter, conversions[n].samples, false, h[..n]);
        assert h[..n] + [conversions[n].samples] == h[..n + 1];
        n := n + 1;
      }
      GoodSoFar(conversions, n);
      assert h[..n] == h;
    }

    /** What a successful adc_read does to the buffer. */
    method Fill(samples: seq<int16>)
      requires |samples| == sampleBuffer.Length
      modifies sampleBuffer
      ensures sampleBuffer[..] == samples
    {
      forall j | 0 <= j < sampleBuffer.Length {
        sampleBuffer[j] := samples[j];
      }
    }
  }
}
