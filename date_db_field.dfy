// A date field (DateDBField): a scalar Date or a vector of Dates, the binary
// record it writes to and reads from the database file, its typed
// accessors, and the checks on a submitted date.
module DateFields {
  import opened Wrappers
  import opened JavaLang
  import opened DataStreams

  /** A java.util.Date, by its getTime(): milliseconds since the epoch. */
  type Date = JLong

  /** What a field holds: value is the scalar Date, values the vector; None is null. */
  datatype Contents = Contents(value: Option<Date>, values: Option<seq<Date>>, defined: bool)

  /** An argument of verifyTypeMatch/verifyNewValue: a Date, null, or an object of another class. */
  datatype Submitted = ADate(time: Date) | Null | NotADate

  // ---------------------------------------------------------------- disk format

  /** The writeLong of each date, in order. */
  function EncodeDates(ds: seq<Date>): (bs: seq<Byte>)
    ensures |bs| == 8 * |ds|
  {
    if ds == [] then [] else EncodeDates(ds[..|ds| - 1]) + WriteLong(ds[|ds| - 1])
  }

  /** emit: a vector writes its size as a short and then each date; a scalar writes its date. */
  function Encode(c: Contents, vector: bool): (r: Outcome<seq<Byte>>)
    ensures r.Threw? <==> (if vector then c.values.None? else c.value.None?)
    ensures r.Threw? ==> r.exc == NullPointer
  {
    if vector then
      if c.values.None? then Threw(NullPointer)
      else Returned(WriteShort(|c.values.value|) + EncodeDates(c.values.value))
    else if c.value.None? then Threw(NullPointer)
    else Returned(WriteLong(c.value.value))
  }

  /** count successive readLong calls: the dates and what follows them, or EOFException. */
  function DecodeDates(count: nat, input: seq<Byte>): (r: Outcome<(seq<Date>, seq<Byte>)>)
    ensures r.Threw? <==> |input| < 8 * count
    ensures r.Threw? ==> r.exc == EndOfFile
    ensures r.Returned? ==> |r.value.0| == count && r.value.1 == input[8 * count..]
  {
    if count == 0 then Returned(([], input))
    else
      var first :- ReadLong(input);
      var others :- DecodeDates(count - 1, first.1);
      Returned(([first.0] + others.0, others.1))
  }

  /**
   * receive: a vector reads a short count and then that many dates, a
   * negative count making `new Vector(count)` throw; a scalar reads one
   * date.  Either way the field ends up defined.
   */
  function Decode(vector: bool, input: seq<Byte>): (r: Outcome<(Contents, seq<Byte>)>)
    ensures r.Returned? ==> r.value.0.defined
    ensures r.Returned? ==> (r.value.0.values.Some? <==> vector) && (r.value.0.value.Some? <==> !vector)
    ensures r.Threw? ==> r.exc == EndOfFile || r.exc == IllegalArgument
  {
    if vector then
      var count :- ReadShort(input);
      if count.0 < 0 then Threw(IllegalArgument)
      else
        var dates :- DecodeDates(count.0, count.1);
        Returned((Contents(None, Some(dates.0), true), dates.1))
    else
      var date :- ReadLong(input);
      Returned((Contents(Some(date.0), None, true), date.1))
  }

  /** The dates of a record, read back one at a time. */
  lemma {:induction false} DatesRoundTrip(ds: seq<Date>, rest: seq<Byte>)
    ensures DecodeDates(|ds|, EncodeDates(ds) + rest) == Returned((ds, rest))
  {
    if ds != [] {
      EncodeDatesFront(ds);
      assert EncodeDates(ds) + rest == WriteLong(ds[0]) + (EncodeDates(ds[1..]) + rest);
      LongRead(ds[0], EncodeDates(ds[1..]) + rest);
      DatesRoundTrip(ds[1..], rest);
      assert [ds[0]] + ds[1..] == ds;
    }
  }

  /** The encoding of a run of dates starts with the encoding of the first. */
  lemma {:induction false} EncodeDatesFront(ds: seq<Date>)
    requires ds != []
    ensures EncodeDates(ds) == WriteLong(ds[0]) + EncodeDates(ds[1..])
  {
    if |ds| > 1 {
      var init := ds[..|ds| - 1];
      EncodeDatesFront(init);
      assert init[1..] == ds[1..][..|ds[1..]| - 1];
      assert init[0] == ds[0];
    } else {
      assert ds[..0] == [];
      assert ds[1..] == [];
    }
  }

  /**
   * Reading back what emit wrote gives the same dates and consumes exactly
   * the record, as long as the vector's size fits in a short.
   */
  lemma VectorRoundTrip(ds: seq<Date>, rest: seq<Byte>)
    requires |ds| < 0x8000
    ensures Encode(Contents(None, Some(ds), true), true).Returned?
    ensures Decode(true, Encode(Contents(None, Some(ds), true), true).value + rest)
      == Returned((Contents(None, Some(ds), true), rest))
  {
    var bs := Encode(Contents(None, Some(ds), true), true).value;
    assert bs + rest == WriteShort(|ds|) + (EncodeDates(ds) + rest);
    ShortRead(|ds|, EncodeDates(ds) + rest);
    DatesRoundTrip(ds, rest);
  }

  /** The scalar record gives back a date with the same getTime(). */
  lemma ScalarRoundTrip(d: Date, rest: seq<Byte>)
    ensures Decode(false, Encode(Contents(Some(d), None, true), false).value + rest)
      == Returned((Contents(Some(d), None, true), rest))
  {
    LongRead(d, rest);
  }

  /** A vector of 32768 dates writes a count that reads back negative, so the reload throws. */
  lemma OversizedVectorRefused(ds: seq<Date>, rest: seq<Byte>)
    requires |ds| == 0x8000
    ensures Decode(true, Encode(Contents(None, Some(ds), true), true).value + rest) == Threw(IllegalArgument)
  {
    var bs := Encode(Contents(None, Some(ds), true), true).value;
    assert bs + rest == WriteShort(|ds|) + (EncodeDates(ds) + rest);
    ShortRead(|ds|, EncodeDates(ds) + rest);
  }

  // ---------------------------------------------------------------- submitted values

  /** verifyTypeMatch: only a Date will do. */
  predicate TypeMatch(o: Submitted) {
    o.ADate?
  }

  /** Why verifyNewValue turned a date down, or that it let it through. */
  datatype Verdict = Accepted | NotEditable | TypeMismatch | Under | Over | OwnerRefused

  /**
   * verifyNewValue: a non-editable field takes nothing, a non-Date is a type
   * mismatch, a limited field refuses a date before its minimum or after its
   * maximum (each limit may be null), and the owner's verifyNewValue has the
   * last word.  The limits and the owner's answer come from the owning object.
   */
  function VerifyNewValue(editable: bool, limited: bool, minDate: Option<Date>, maxDate: Option<Date>,
                          o: Submitted, ownerOk: bool): (v: Verdict)
    ensures v == Accepted <==>
      editable && TypeMatch(o) && ownerOk &&
      (limited ==> (minDate.None? || o.time >= minDate.value) && (maxDate.None? || o.time <= maxDate.value))
    ensures v == TypeMismatch <==> editable && !TypeMatch(o)
    ensures v == Under <==> editable && TypeMatch(o) && limited && minDate.Some? && o.time < minDate.value
  {
    if !editable then NotEditable
    else if !TypeMatch(o) then TypeMismatch
    else if limited && minDate.Some? && o.time < minDate.value then Under
    else if limited && maxDate.Some? && o.time > maxDate.value then Over
    else if !ownerOk then OwnerRefused
    else Accepted
  }

  /** Both limits are inclusive: the boundary dates themselves pass the range check. */
  lemma BoundariesAccepted(lo: Date, hi: Date)
    requires lo <= hi
    ensures VerifyNewValue(true, true, Some(lo), Some(hi), ADate(lo), true) == Accepted
    ensures VerifyNewValue(true, true, Some(lo), Some(hi), ADate(hi), true) == Accepted
    ensures lo > -0x8000_0000_0000_0000 ==>
      VerifyNewValue(true, true, Some(lo), Some(hi), ADate(lo - 1), true) == Under
    ensures hi < 0x7fff_ffff_ffff_ffff ==>
      VerifyNewValue(true, true, Some(lo), Some(hi), ADate(hi + 1), true) == Over
  {
  }

  // ---------------------------------------------------------------- constructors

  /** The scalar value constructor: refused on a vector field; defined iff the date is non-null. */
  function ScalarConstructed(isArray: bool, value: Option<Date>): (r: Outcome<Contents>)
    ensures r.Threw? <==> isArray
    ensures r.Threw? ==> r.exc == IllegalArgument
    ensures r.Returned? ==> r.value.value == value && r.value.values.None? && (r.value.defined <==> value.Some?)
  {
    if isArray then Threw(IllegalArgument) else Returned(Contents(value, None, value.Some?))
  }

  /**
   * The vector value constructor as written: for a non-null vector it clones
   * the field `value`, which the constructor has not assigned and is still
   * null, rather than the parameter `values`.
   */
  function VectorConstructedAsWritten(isArray: bool, values: Option<seq<Date>>): (r: Outcome<Contents>)
    ensures r.Threw? <==> !isArray || values.Some?
  {
    if !isArray then Threw(IllegalArgument)
    else if values.None? then Returned(Contents(None, Some([]), true))
    else Threw(NullPointer)
  }

  /** Any non-null vector of dates makes the constructor throw. */
  lemma VectorConstructorThrows(ds: seq<Date>)
    ensures VectorConstructedAsWritten(true, Some(ds)) == Threw(NullPointer)
  {
  }

  /** The vector value constructor as intended: a copy of the given dates, and always defined. */
  function VectorConstructed(isArray: bool, values: Option<seq<Date>>): (r: Outcome<Contents>)
    ensures r.Threw? <==> !isArray
    ensures r.Threw? ==> r.exc == IllegalArgument
    ensures r.Returned? ==>
      r.value.defined && r.value.value.None? &&
      r.value.values == Some(if values.Some? then values.value else [])
  {
    if !isArray then Threw(IllegalArgument)
    else Returned(Contents(None, Some(if values.Some? then values.value else []), true))
  }

  /** What the corrected constructor builds survives a dump and reload. */
  lemma ConstructedSurvivesReload(ds: seq<Date>, rest: seq<Byte>)
    requires |ds| < 0x8000
    ensures var c := VectorConstructed(true, Some(ds)).value;
      Decode(true, Encode(c, true).value + rest) == Returned((c, rest))
  {
    VectorRoundTrip(ds, rest);
  }

  // ---------------------------------------------------------------- the field

  class DateField {
    /** definition.isArray(). */
    const vector: bool
    var value: Option<Date>
    var values: Option<seq<Date>>
    var defined: bool

    function State(): Contents
      reads this
    {
      Contents(value, values, defined)
    }

    /** The no-value constructor: a template with no value at all. */
    constructor (vector: bool)
      ensures this.vector == vector && State() == Contents(None, None, false)
    {
      this.vector := vector;
      value := None;
      values := None;
      defined := false;
    }

    /** The scalar value constructor. */
    static method NewScalar(isArray: bool, value: Option<Date>) returns (r: Outcome<DateField>)
      ensures r.Threw? <==> ScalarConstructed(isArray, value).Threw?
      ensures r.Threw? ==> r.exc == IllegalArgument
      ensures r.Returned? ==>
        fresh(r.value) && !r.value.vector && r.value.State() == ScalarConstructed(isArray, value).value
    {
      if isArray {
        return Threw(IllegalArgument);
      }
      var field := new DateField(false);
      field.value := value;
      field.defined := value.Some?;
      r := Returned(field);
    }

    /** The vector value constructor, copying the given dates. */
    static method NewVector(isArray: bool, values: Option<seq<Date>>) returns (r: Outcome<DateField>)
      ensures r.Threw? <==> VectorConstructed(isArray, values).Threw?
      ensures r.Threw? ==> r.exc == IllegalArgument
      ensures r.Returned? ==>
        fresh(r.value) && r.value.vector && r.value.State() == VectorConstructed(isArray, values).value
    {
      if !isArray {
        return Threw(IllegalArgument);
      }
      var field := new DateField(true);
      field.values := Some(if values.Some? then values.value else []);
      field.defined := true;
      r := Returned(field);
    }

    /** The copy constructor: the other field's dates, always defined; a null vector is a NullPointerException. */
    static method Copy(other: DateField) returns (r: Outcome<DateField>)
      ensures r.Threw? <==> other.vector && other.values.None?
      ensures r.Threw? ==> r.exc == NullPointer
      ensures r.Returned? ==>
        fresh(r.value) && r.value.vector == other.vector && r.value.defined &&
        (if other.vector then r.value.values == other.values && r.value.value.None?
         else r.value.value == other.value && r.value.values.None?)
    {
      if other.vector && other.values.None? {
        return Threw(NullPointer);
      }
      var field := new DateField(other.vector);
      if other.vector {
        field.values := other.values;
      } else {
        field.value := other.value;
      }
      field.defined := true;
      r := Returned(field);
    }

    /** emit: the record that Encode describes, written one date at a time. */
    method Emit() returns (r: Outcome<seq<Byte>>)
      ensures r == Encode(State(), vector)
    {
      if !vector {
        if value.None? {
          return Threw(NullPointer);
        }
        return Returned(WriteLong(value.value));
      }
      if values.None? {
        return Threw(NullPointer);
      }
      var ds := values.value;
      var out := WriteShort(|ds|);
      var i := 0;
      while i < |ds|
        invariant 0 <= i <= |ds|
        invariant out == WriteShort(|ds|) + EncodeDates(ds[..i])
      {
        assert ds[..i + 1][..i] == ds[..i];
        out := out + WriteLong(ds[i]);
        i := i + 1;
      }
      assert ds[..i] == ds;
      r := Returned(out);
    }

    /** The receive constructor: a fresh field filled from the stream, reading one date at a time. */
    static method Receive(vector: bool, input: seq<Byte>) returns (r: Outcome<(DateField, seq<Byte>)>)
      ensures r.Threw? <==> Decode(vector, input).Threw?
      ensures r.Threw? ==> r.exc == Decode(vector, input).exc
      ensures r.Returned? ==>
        fresh(r.value.0) && r.value.0.vector == vector &&
        (r.value.0.State(), r.value.1) == Decode(vector, input).value
    {
      var field := new DateField(vector);
      if !vector {
        var date := ReadLong(input);
        if date.Threw? {
          return Threw(date.exc);
        }
        field.value := Some(date.value.0);
        field.defined := true;
        return Returned((field, date.value.1));
      }
      var count := ReadShort(input);
      if count.Threw? {
        return Threw(count.exc);
      }
      if count.value.0 < 0 {
        return Threw(IllegalArgument);
      }
      var dates := ReadDates(count.value.0, count.value.1);
      if dates.Threw? {
        return Threw(dates.exc);
      }
      field.values := Some(dates.value.0);
      field.defined := true;
      r := Returned((field, dates.value.1));
    }

    /** value(): the scalar date; a vector field throws. */
    function Value(): (r: Outcome<Option<Date>>)
      reads this
      ensures r.Threw? <==> vector
      ensures r.Threw? ==> r.exc == IllegalArgument
      ensures r.Returned? ==> r.value == value
    {
      if vector then Threw(IllegalArgument) else Returned(value)
    }

    /** value(i): the i-th date of a vector; a scalar field throws, as does an index out of range. */
    function ValueAt(i: int): (r: Outcome<Date>)
      reads this
      ensures !vector ==> r == Threw(IllegalArgument)
      ensures vector && values.None? ==> r == Threw(NullPointer)
      ensures vector && values.Some? ==>
        (r.Returned? <==> 0 <= i < |values.value|) &&
        (r.Returned? ==> r.value == values.value[i]) &&
        (r.Threw? ==> r.exc == IndexOutOfBounds)
    {
      if !vector then Threw(IllegalArgument)
      else if values.None? then Threw(NullPointer)
      else if 0 <= i < |values.value| then Returned(values.value[i])
      else Threw(IndexOutOfBounds)
    }
  }

  /** The receive loop: count calls of readLong, each date appended as it is read. */
  method ReadDates(count: nat, input: seq<Byte>) returns (r: Outcome<(seq<Date>, seq<Byte>)>)
    ensures r == DecodeDates(count, input)
  {
    var ds: seq<Date> := [];
    var rest := input;
    var i := 0;
    ThenNothing(DecodeDates(count, input));
    while i < count
      invariant 0 <= i <= count
      invariant DecodeDates(count, input) == Then(ds, DecodeDates(count - i, rest))
    {
      var date := ReadLong(rest);
      if date.Threw? {
        return Threw(date.exc);
      }
      ThenThen(ds, date.value.0, DecodeDates(count - i - 1, date.value.1));
      ds := ds + [date.value.0];
      rest := date.value.1;
      i := i + 1;
    }
    assert ds + [] == ds;
    r := Returned((ds, rest));
  }

  /** The dates read so far, put in front of what the remaining reads give. */
  function Then(ds: seq<Date>, o: Outcome<(seq<Date>, seq<Byte>)>): Outcome<(seq<Date>, seq<Byte>)> {
    if o.Threw? then o else Returned((ds + o.value.0, o.value.1))
  }

  lemma ThenNothing(o: Outcome<(seq<Date>, seq<Byte>)>)
    ensures Then([], o) == o
  {
    if o.Returned? {
      assert [] + o.value.0 == o.value.0;
    }
  }

  lemma ThenThen(ds: seq<Date>, d: Date, o: Outcome<(seq<Date>, seq<Byte>)>)
    ensures Then(ds, Then([d], o)) == Then(ds + [d], o)
  {
    if o.Returned? {
      assert ds + ([d] + o.value.0) == ds + [d] + o.value.0;
    }
  }
}
