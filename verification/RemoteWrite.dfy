/**
 The Remote Write 1.0 messages built by server/rapidly/observability/remote_write.py, read back
 with the schema of the Prometheus Remote-Write 1.0 specification, section "Protocol".
 */
module RemoteWrite {
  import opened Prelude
  import opened WireFormat

  /** Names and values are UTF-8 byte strings. */
  datatype Label = Label(name: Bytes, text: Bytes)

  datatype Sample = Sample(value: Double, timestamp: int)

  datatype TimeSeries = TimeSeries(labels: seq<Label>, samples: seq<Sample>)

  // ----- building -----------------------------------------------------------------------

  const ZERO: Double := [0, 0, 0, 0, 0, 0, 0, 0]

  /** Not finite means an exponent of all ones. */
  predicate IsFinite(value: Double) {
    value[7] % 128 != 127 || value[6] / 16 != 15
  }

  function Safe(value: Double): Double {
    if IsFinite(value) then value else ZERO
  }

  /** A double whose eleven exponent bits are not all ones is sent as it is, any other as zero. */
  lemma SafeIs(value: Double)
    ensures Safe(value) == if (value[7] as int % 128) * 16 + value[6] as int / 16 != 2047 then value else [0, 0, 0, 0, 0, 0, 0, 0]
  {
  }

  function BuildLabelPair(pair: Label): Bytes {
    FieldBytes(1, pair.name) + FieldBytes(2, pair.text)
  }

  function BuildSample(value: Double, timestamp: int): Result<Bytes, Error> {
    var stamp := FieldInt64(2, timestamp);
    if stamp.Err? then stamp else Ok(FieldDouble(1, Safe(value)) + stamp.value)
  }

  function BuildLabels(labels: seq<Label>): Bytes {
    if labels == [] then [] else FieldBytes(1, BuildLabelPair(labels[0])) + BuildLabels(labels[1..])
  }

  function BuildTimeSeries(labels: seq<Label>, value: Double, timestamp: int): Result<Bytes, Error> {
    var sample := BuildSample(value, timestamp);
    if sample.Err? then sample else Ok(BuildLabels(labels) + FieldBytes(2, sample.value))
  }

  function BuildWriteRequest(series: seq<Bytes>): Bytes {
    if series == [] then [] else FieldBytes(1, series[0]) + BuildWriteRequest(series[1..])
  }

  /** One measurement, stamped when it is pushed. */
  datatype Measurement = Measurement(labels: seq<Label>, value: Double, timestamp: nat)

  /** The series of one push. */
  function BuildAll(ms: seq<Measurement>): seq<Bytes> {
    if ms == [] then []
    else [BuildTimeSeries(ms[0].labels, ms[0].value, ms[0].timestamp).value] + BuildAll(ms[1..])
  }

  // ----- reading ------------------------------------------------------------------------

  /** A varint read as `int64`: two's complement, at most 64 bits. */
  function ReadInt64(n: nat): Option<int> {
    if n < 0x8000_0000_0000_0000 then Some(n)
    else if n < 0x1_0000_0000_0000_0000 then Some(n - 0x1_0000_0000_0000_0000)
    else None
  }

  /** The last field with a tag counts; an absent one has its default; others are ignored. */
  function LastBytes(fields: seq<Field>, tag: nat): Bytes {
    if fields == [] then []
    else
      var f := fields[|fields| - 1];
      if f.LengthField? && f.tag == tag then f.payload else LastBytes(fields[..|fields| - 1], tag)
  }

  function LastDouble(fields: seq<Field>, tag: nat): Double {
    if fields == [] then ZERO
    else
      var f := fields[|fields| - 1];
      if f.Fixed64Field? && f.tag == tag then f.double else LastDouble(fields[..|fields| - 1], tag)
  }

  function LastNumber(fields: seq<Field>, tag: nat): nat {
    if fields == [] then 0
    else
      var f := fields[|fields| - 1];
      if f.VarintField? && f.tag == tag then f.number else LastNumber(fields[..|fields| - 1], tag)
  }

  function ParseLabel(bytes: Bytes): Option<Label> {
    var fields := ReadFields(bytes);
    if fields.None? then None else Some(Label(LastBytes(fields.value, 1), LastBytes(fields.value, 2)))
  }

  function ParseSample(bytes: Bytes): Option<Sample> {
    var fields := ReadFields(bytes);
    if fields.None? then None
    else
      var timestamp := ReadInt64(LastNumber(fields.value, 2));
      if timestamp.None? then None else Some(Sample(LastDouble(fields.value, 1), timestamp.value))
  }

  function ParseSeriesFields(fields: seq<Field>): Option<TimeSeries> {
    if fields == [] then Some(TimeSeries([], []))
    else
      var more := ParseSeriesFields(fields[1..]);
      var f := fields[0];
      if more.None? then None
      else if f.LengthField? && f.tag == 1 then
        var pair := ParseLabel(f.payload);
        if pair.None? then None else Some(more.value.(labels := [pair.value] + more.value.labels))
      else if f.LengthField? && f.tag == 2 then
        var sample := ParseSample(f.payload);
        if sample.None? then None else Some(more.value.(samples := [sample.value] + more.value.samples))
      else more
  }

  function ParseTimeSeries(bytes: Bytes): Option<TimeSeries> {
    var fields := ReadFields(bytes);
    if fields.None? then None else ParseSeriesFields(fields.value)
  }

  function ParseRequestFields(fields: seq<Field>): Option<seq<TimeSeries>> {
    if fields == [] then Some([])
    else
      var more := ParseRequestFields(fields[1..]);
      var f := fields[0];
      if more.None? then None
      else if f.LengthField? && f.tag == 1 then
        var series := ParseTimeSeries(f.payload);
        if series.None? then None else Some([series.value] + more.value)
      else more
  }

  function ParseWriteRequest(bytes: Bytes): Option<seq<TimeSeries>> {
    var fields := ReadFields(bytes);
    if fields.None? then None else ParseRequestFields(fields.value)
  }

  // ----- round trips --------------------------------------------------------------------

  lemma ReadFieldsStep(first: Bytes, field: Field, rest: Bytes)
    requires first != [] && ReadField(first + rest) == Some((field, rest))
    requires ReadFields(rest).Some?
    ensures ReadFields(first + rest) == Some([field] + ReadFields(rest).value)
  {
  }

  lemma ReadFieldsOne(only: Bytes, field: Field)
    requires only != [] && ReadField(only + []) == Some((field, []))
    ensures ReadFields(only) == Some([field])
  {
    assert only + [] == only;
    ReadFieldsStep(only, field, []);
    assert [field] + [] == [field];
  }

  lemma LabelFields(pair: Label)
    ensures ReadFields(BuildLabelPair(pair)) == Some([LengthField(1, pair.name), LengthField(2, pair.text)])
  {
    var second := FieldBytes(2, pair.text);
    ReadBytesField(2, pair.text, []);
    ReadFieldsOne(second, LengthField(2, pair.text));
    ReadBytesField(1, pair.name, second);
    ReadFieldsStep(FieldBytes(1, pair.name), LengthField(1, pair.name), second);
    assert [LengthField(1, pair.name)] + [LengthField(2, pair.text)] == [LengthField(1, pair.name), LengthField(2, pair.text)];
  }

  lemma LabelRoundTrip(pair: Label)
    ensures ParseLabel(BuildLabelPair(pair)) == Some(pair)
  {
    LabelFields(pair);
    var fields := [LengthField(1, pair.name), LengthField(2, pair.text)];
    assert fields[..1] == [LengthField(1, pair.name)] && LastBytes(fields[..1], 1) == pair.name;
    assert LastBytes(fields, 1) == LastBytes(fields[..1], 1);
  }

  lemma ReadSample(value: Double, timestamp: nat)
    ensures ReadFields(BuildSample(value, timestamp).value) == Some([Fixed64Field(1, Safe(value)), VarintField(2, timestamp)])
  {
    var second := FieldInt64(2, timestamp).value;
    ReadInt64Field(2, timestamp, []);
    ReadFieldsOne(second, VarintField(2, timestamp));
    ReadDoubleField(1, Safe(value), second);
    ReadFieldsStep(FieldDouble(1, Safe(value)), Fixed64Field(1, Safe(value)), second);
    assert [Fixed64Field(1, Safe(value))] + [VarintField(2, timestamp)] == [Fixed64Field(1, Safe(value)), VarintField(2, timestamp)];
  }

  /**
   A sample is read back with its timestamp taken as an `int64` and its own value, unless that is
   infinite or not a number (an exponent of all ones): then with zero.
   */
  lemma SampleIsRead(value: Double, timestamp: nat)
    ensures ParseSample(BuildSample(value, timestamp).value) ==
            var stamp := ReadInt64(timestamp);
            var finite := (value[7] as int % 128) * 16 + value[6] as int / 16 != 2047;
            if stamp.None? then None
            else Some(Sample(if finite then value else [0, 0, 0, 0, 0, 0, 0, 0], stamp.value))
  {
    SafeIs(value);
    ReadSample(value, timestamp);
    var fields := [Fixed64Field(1, Safe(value)), VarintField(2, timestamp)];
    assert fields[..1] == [Fixed64Field(1, Safe(value))];
    assert LastDouble(fields, 1) == LastDouble(fields[..1], 1) == Safe(value);
    assert LastNumber(fields, 2) == timestamp;
  }

  function SeriesAt(labels: seq<Label>, value: Double, timestamp: Option<int>): Option<TimeSeries> {
    if timestamp.None? then None else Some(TimeSeries(labels, [Sample(Safe(value), timestamp.value)]))
  }

  lemma ParseSampleField(value: Double, timestamp: nat)
    ensures ParseSeriesFields([LengthField(2, BuildSample(value, timestamp).value)]) == SeriesAt([], value, ReadInt64(timestamp))
  {
    var fields := [LengthField(2, BuildSample(value, timestamp).value)];
    SampleIsRead(value, timestamp);
    SafeIs(value);
    assert fields[1..] == [];
    assert ParseSeriesFields(fields[1..]) == Some(TimeSeries([], []));
    if ReadInt64(timestamp).Some? {
      var sample := Sample(Safe(value), ReadInt64(timestamp).value);
      assert [sample] + [] == [sample];
    }
  }

  lemma SeriesWithoutLabels(value: Double, timestamp: nat)
    ensures var bytes := BuildTimeSeries([], value, timestamp).value;
            && ReadFields(bytes).Some?
            && ParseSeriesFields(ReadFields(bytes).value) == SeriesAt([], value, ReadInt64(timestamp))
  {
    var sample := BuildSample(value, timestamp).value;
    ReadBytesField(2, sample, []);
    ReadFieldsOne(FieldBytes(2, sample), LengthField(2, sample));
    assert BuildTimeSeries([], value, timestamp).value == FieldBytes(2, sample);
    ParseSampleField(value, timestamp);
  }

  lemma ParseLabelField(pair: Label, more: seq<Field>)
    ensures var rest := ParseSeriesFields(more);
            ParseSeriesFields([LengthField(1, BuildLabelPair(pair))] + more) ==
            if rest.None? then None else Some(rest.value.(labels := [pair] + rest.value.labels))
  {
    LabelRoundTrip(pair);
    assert ([LengthField(1, BuildLabelPair(pair))] + more)[1..] == more;
  }

  lemma BuiltLabelFirst(labels: seq<Label>, value: Double, timestamp: nat)
    requires labels != []
    ensures BuildTimeSeries(labels, value, timestamp).value ==
            FieldBytes(1, BuildLabelPair(labels[0])) + BuildTimeSeries(labels[1..], value, timestamp).value
  {
  }

  lemma {:induction false} SeriesFieldsRead(labels: seq<Label>, value: Double, timestamp: nat)
    ensures var bytes := BuildTimeSeries(labels, value, timestamp).value;
            && ReadFields(bytes).Some?
            && ParseSeriesFields(ReadFields(bytes).value) == SeriesAt(labels, value, ReadInt64(timestamp))
    decreases |labels|
  {
    if labels == [] {
      SeriesWithoutLabels(value, timestamp);
    } else {
      var built := BuildLabelPair(labels[0]);
      var rest := BuildTimeSeries(labels[1..], value, timestamp).value;
      SeriesFieldsRead(labels[1..], value, timestamp);
      BuiltLabelFirst(labels, value, timestamp);
      ReadBytesField(1, built, rest);
      ReadFieldsStep(FieldBytes(1, built), LengthField(1, built), rest);
      ParseLabelField(labels[0], ReadFields(rest).value);
      assert [labels[0]] + labels[1..] == labels;
    }
  }

  /** A series is read back with its labels in order and its one sample. */
  lemma SeriesIsRead(labels: seq<Label>, value: Double, timestamp: nat)
    ensures ParseTimeSeries(BuildTimeSeries(labels, value, timestamp).value) ==
            var stamp := ReadInt64(timestamp);
            var finite := (value[7] as int % 128) * 16 + value[6] as int / 16 != 2047;
            if stamp.None? then None
            else Some(TimeSeries(labels, [Sample(if finite then value else [0, 0, 0, 0, 0, 0, 0, 0], stamp.value)]))
  {
    SeriesFieldsRead(labels, value, timestamp);
    SafeIs(value);
  }

  /** What a receiver should see: the measurements, those not finite as zero. */
  function Received(ms: seq<Measurement>): (series: seq<TimeSeries>)
    ensures |series| == |ms|
    ensures forall i :: 0 <= i < |ms| ==>
                          && series[i].labels == ms[i].labels
                          && |series[i].samples| == 1
                          && series[i].samples[0].timestamp == ms[i].timestamp
                          && series[i].samples[0].value ==
                             if (ms[i].value[7] as int % 128) * 16 + ms[i].value[6] as int / 16 != 2047 then ms[i].value
                             else [0, 0, 0, 0, 0, 0, 0, 0]
  {
    if ms == [] then []
    else
      SafeIs(ms[0].value);
      [TimeSeries(ms[0].labels, [Sample(Safe(ms[0].value), ms[0].timestamp)])] + Received(ms[1..])
  }

  /** What a receiver does see. */
  function Seen(ms: seq<Measurement>): Option<seq<TimeSeries>> {
    if ms == [] then Some([])
    else
      var first := SeriesAt(ms[0].labels, ms[0].value, ReadInt64(ms[0].timestamp));
      var more := Seen(ms[1..]);
      if more.None? || first.None? then None else Some([first.value] + more.value)
  }

  lemma {:induction false} RequestIsRead(ms: seq<Measurement>)
    ensures var bytes := BuildWriteRequest(BuildAll(ms));
            && ReadFields(bytes).Some?
            && ParseRequestFields(ReadFields(bytes).value) == Seen(ms)
    decreases |ms|
  {
    if ms != [] {
      var series := BuildTimeSeries(ms[0].labels, ms[0].value, ms[0].timestamp).value;
      var all := BuildAll(ms);
      assert all[0] == series && all[1..] == BuildAll(ms[1..]);
      var rest := BuildWriteRequest(all[1..]);
      RequestIsRead(ms[1..]);
      ReadBytesField(1, series, rest);
      ReadFieldsStep(FieldBytes(1, series), LengthField(1, series), rest);
      SeriesFieldsRead(ms[0].labels, ms[0].value, ms[0].timestamp);
      var fields := ReadFields(BuildWriteRequest(all)).value;
      assert fields[1..] == ReadFields(rest).value;
    }
  }

  predicate FitsInt64(ms: seq<Measurement>) {
    forall i :: 0 <= i < |ms| ==> ms[i].timestamp < 0x8000_0000_0000_0000
  }

  lemma {:induction false} SeenExactly(ms: seq<Measurement>)
    ensures Seen(ms) == Some(Received(ms)) <==> FitsInt64(ms)
  {
    if ms != [] {
      SeenExactly(ms[1..]);
      if Seen(ms) == Some(Received(ms)) {
        assert Seen(ms).value[0] == Received(ms)[0];
        assert Seen(ms).value[1..] == Received(ms)[1..];
        assert Received(ms)[0].samples[0].timestamp == ms[0].timestamp;
        forall i | 0 <= i < |ms| ensures ms[i].timestamp < 0x8000_0000_0000_0000 {
          if i > 0 {
            assert ms[i] == ms[1..][i - 1];
          }
        }
      }
    }
  }

  /**
   A write request is read back as the series sent (labels in order, timestamps, every value that
   is finite and zero for the others) exactly when all timestamps fit an `int64`.
   */
  lemma WriteRequestRoundTrip(ms: seq<Measurement>)
    ensures ParseWriteRequest(BuildWriteRequest(BuildAll(ms))) == Some(Received(ms)) <==> FitsInt64(ms)
  {
    RequestIsRead(ms);
    SeenExactly(ms);
  }

  /** A negative timestamp is refused before anything is sent. */
  lemma NegativeTimestampRefused(labels: seq<Label>, value: Double, timestamp: int)
    ensures BuildTimeSeries(labels, value, timestamp).Err? <==> timestamp < 0
  {
  }

  predicate SameUpToSafety(m: Measurement, n: Measurement) {
    m.labels == n.labels && Safe(m.value) == Safe(n.value) && m.timestamp == n.timestamp
  }

  // ----- injectivity --------------------------------------------------------------------

  /** A field is not the beginning of anything but itself. */
  lemma FieldInjective(t: nat, a: Bytes, more: Bytes, u: nat, b: Bytes, rest: Bytes)
    requires 0 < t < 16 && 0 < u < 16
    requires FieldBytes(t, a) + more == FieldBytes(u, b) + rest
    ensures t == u && a == b && more == rest
  {
    ReadBytesField(t, a, more);
    ReadBytesField(u, b, rest);
  }

  lemma SampleInjective(v: Double, t: nat, w: Double, u: nat)
    requires BuildSample(v, t).value == BuildSample(w, u).value
    ensures Safe(v) == Safe(w) && t == u
  {
    ReadSample(v, t);
    ReadSample(w, u);
    assert [Fixed64Field(1, Safe(v)), VarintField(2, t)][0] == [Fixed64Field(1, Safe(w)), VarintField(2, u)][0];
    assert [Fixed64Field(1, Safe(v)), VarintField(2, t)][1] == [Fixed64Field(1, Safe(w)), VarintField(2, u)][1];
  }

  /** The first field of a series and what follows it. */
  lemma SeriesStarts(labels: seq<Label>, value: Double, timestamp: nat) returns (t: nat, payload: Bytes, rest: Bytes)
    ensures 0 < t < 16 && BuildTimeSeries(labels, value, timestamp).value == FieldBytes(t, payload) + rest
    ensures labels == [] ==> t == 2 && payload == BuildSample(value, timestamp).value
    ensures labels != [] ==>
              t == 1 && payload == BuildLabelPair(labels[0]) && rest == BuildTimeSeries(labels[1..], value, timestamp).value
  {
    if labels == [] {
      t, payload, rest := 2, BuildSample(value, timestamp).value, [];
      assert FieldBytes(2, payload) + [] == FieldBytes(2, payload);
    } else {
      t, payload, rest := 1, BuildLabelPair(labels[0]), BuildTimeSeries(labels[1..], value, timestamp).value;
      BuiltLabelFirst(labels, value, timestamp);
    }
  }

  lemma {:induction false} SeriesInjective(m: Measurement, n: Measurement)
    requires BuildTimeSeries(m.labels, m.value, m.timestamp).value == BuildTimeSeries(n.labels, n.value, n.timestamp).value
    ensures SameUpToSafety(m, n)
    decreases |m.labels|
  {
    var t, a, more := SeriesStarts(m.labels, m.value, m.timestamp);
    var u, b, rest := SeriesStarts(n.labels, n.value, n.timestamp);
    FieldInjective(t, a, more, u, b, rest);
    if m.labels == [] {
      SampleInjective(m.value, m.timestamp, n.value, n.timestamp);
    } else {
      LabelRoundTrip(m.labels[0]);
      LabelRoundTrip(n.labels[0]);
      SeriesInjective(m.(labels := m.labels[1..]), n.(labels := n.labels[1..]));
      assert m.labels == [m.labels[0]] + m.labels[1..] && n.labels == [n.labels[0]] + n.labels[1..];
    }
  }

  lemma {:induction false} RequestInjective(ms: seq<Measurement>, ns: seq<Measurement>)
    requires BuildWriteRequest(BuildAll(ms)) == BuildWriteRequest(BuildAll(ns))
    ensures |ms| == |ns| && forall i :: 0 <= i < |ms| ==> SameUpToSafety(ms[i], ns[i])
    decreases |ms|
  {
    if ms != [] && ns != [] {
      var a, more := RequestStarts(ms);
      var b, rest := RequestStarts(ns);
      FieldInjective(1, a, more, 1, b, rest);
      SeriesInjective(ms[0], ns[0]);
      RequestInjective(ms[1..], ns[1..]);
      forall i | 0 <= i < |ms| ensures SameUpToSafety(ms[i], ns[i]) {
        assert i > 0 ==> ms[i] == ms[1..][i - 1] && ns[i] == ns[1..][i - 1];
      }
    } else if ms != [] {
      var a, more := RequestStarts(ms);
    } else if ns != [] {
      var b, rest := RequestStarts(ns);
    }
  }

  /**
   Equal requests carry the same labels, timestamps and finite values: also for timestamps that no
   receiver takes for an `int64`.  Only zero may stand for a value that is not finite.
   */
  lemma WriteRequestInjective(ms: seq<Measurement>, ns: seq<Measurement>, i: nat)
    requires BuildWriteRequest(BuildAll(ms)) == BuildWriteRequest(BuildAll(ns))
    ensures |ms| == |ns|
    ensures i < |ms| ==>
              var v, w := ms[i].value, ns[i].value;
              var finite := (v[7] as int % 128) * 16 + v[6] as int / 16 != 2047;
              var alike := (w[7] as int % 128) * 16 + w[6] as int / 16 != 2047;
              && ms[i].labels == ns[i].labels
              && ms[i].timestamp == ns[i].timestamp
              && (finite && alike ==> v == w)
              && (finite && !alike ==> v == [0, 0, 0, 0, 0, 0, 0, 0])
              && (!finite && alike ==> w == [0, 0, 0, 0, 0, 0, 0, 0])
  {
    RequestInjective(ms, ns);
    if i < |ms| {
      assert SameUpToSafety(ms[i], ns[i]);
      SafeIs(ms[i].value);
      SafeIs(ns[i].value);
    }
  }

  lemma RequestStarts(ms: seq<Measurement>) returns (series: Bytes, rest: Bytes)
    requires ms != []
    ensures series == BuildTimeSeries(ms[0].labels, ms[0].value, ms[0].timestamp).value
    ensures rest == BuildWriteRequest(BuildAll(ms[1..]))
    ensures BuildWriteRequest(BuildAll(ms)) == FieldBytes(1, series) + rest != []
  {
    series := BuildTimeSeries(ms[0].labels, ms[0].value, ms[0].timestamp).value;
    rest := BuildWriteRequest(BuildAll(ms[1..]));
    assert BuildAll(ms)[0] == series && BuildAll(ms)[1..] == BuildAll(ms[1..]);
  }
}
