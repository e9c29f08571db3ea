/**
 The range planner and the range headers of crates/adrive/src/handler/download_ranges.rs.
 The header grammars are those of sections 14.1.2 and 14.4 of RFC 9110, the 206 status that of
 section 15.3.7.1.
 */
module DownloadRanges {
  import opened Prelude
  import opened Strings

  const PART_SIZE: nat := 16_777_216

  datatype DownloadRange = DownloadRange(number: nat, offset: nat, size: nat) {
    /** "This nonempty checked range": its end fits in 64 bits. */
    predicate Checked() {
      size > 0 && offset + size <= U64_MAX
    }

    function End(): nat {
      offset + size
    }
  }

  // ----- The plan -----

  function PartCount(size: nat): nat {
    (size + PART_SIZE - 1) / PART_SIZE
  }

  /** The k-th part, counted from zero, in closed form. */
  function Part(size: nat, k: nat): DownloadRange
    requires k < PartCount(size)
  {
    DownloadRange(k + 1, k * PART_SIZE, Min(PART_SIZE, size - k * PART_SIZE))
  }

  function Parts(size: nat): (parts: seq<DownloadRange>)
    ensures |parts| == PartCount(size)
    ensures forall k :: 0 <= k < |parts| ==> parts[k] == Part(size, k)
  {
    seq(PartCount(size), k requires 0 <= k < PartCount(size) => Part(size, k))
  }

  /** Consecutive non-empty ranges, from the first byte to the last. */
  ghost predicate Contiguous(parts: seq<DownloadRange>, start: nat, end: nat) {
    && (parts == [] <==> start == end)
    && (parts != [] ==> parts[0].offset == start && parts[|parts| - 1].End() == end)
    && (forall k :: 0 <= k < |parts| ==> parts[k].size > 0)
    && (forall k :: 0 < k < |parts| ==> parts[k].offset == parts[k - 1].End())
  }

  /** The plan cuts every size exactly: contiguous, all parts full but possibly the last, numbered from one. */
  lemma {:induction false} PlanIsExactPartition(size: nat)
    ensures var parts := Parts(size);
            && Contiguous(parts, 0, size)
            && (forall k :: 0 <= k < |parts| - 1 ==> parts[k].size == PART_SIZE)
            && (forall k :: 0 <= k < |parts| ==> parts[k].size <= PART_SIZE && parts[k].number == k + 1)
            && (size <= U64_MAX ==> forall k :: 0 <= k < |parts| ==> parts[k].Checked())
  {
  }

  /** Every byte of the file lies in exactly one part. */
  lemma {:induction false} EachByteInOnePart(size: nat, i: nat)
    requires i < size
    ensures i / PART_SIZE < PartCount(size)
    ensures forall k :: 0 <= k < PartCount(size) ==>
              (Part(size, k).offset <= i < Part(size, k).End() <==> k == i / PART_SIZE)
  {
  }

  class RangePlan {
    const size: nat
    var offset: nat
    var nextNumber: nat

    ghost predicate Valid()
      reads this
    {
      && size <= U64_MAX
      && PartCount(size) <= U32_MAX
      && offset <= size
      && nextNumber <= U32_MAX
      && (offset < size ==> offset == (nextNumber - 1) * PART_SIZE && 1 <= nextNumber)
    }

    /** How many parts have been handed out. */
    ghost function Emitted(): nat
      requires Valid()
      reads this
    {
      if offset == size then PartCount(size) else nextNumber - 1
    }

    /** The parts still to come, whatever the intermediate state. */
    ghost function Remaining(): seq<DownloadRange>
      requires Valid()
      reads this
    {
      Parts(size)[Emitted()..]
    }

    constructor (size: nat)
      requires size <= U64_MAX && PartCount(size) <= U32_MAX
      ensures Valid() && this.size == size && Remaining() == Parts(size)
    {
      this.size := size;
      this.offset := 0;
      this.nextNumber := 1;
    }

    /** `RangePlan::new`: rejects exactly the sizes with more parts than a 32-bit number can count. */
    static method New(size: nat) returns (plan: Result<RangePlan, string>)
      requires size <= U64_MAX
      ensures plan.Failure? <==> size > 4_294_967_295 * 16_777_216
      ensures plan.Failure? ==> plan.error == "file exceeds range part-count limit"
      ensures plan.Success? ==> fresh(plan.value) && plan.value.Valid() && plan.value.size == size
                                && plan.value.Remaining() == Parts(size)
    {
      if PartCount(size) > U32_MAX {
        return Failure("file exceeds range part-count limit");
      }
      var created := new RangePlan(size);
      return Success(created);
    }

    /** The iterator step: hands out the first remaining part; the saturating counter never repeats a number. */
    method Next() returns (range: Option<DownloadRange>)
      requires Valid()
      modifies this`offset, this`nextNumber
      ensures Valid()
      ensures range.None? <==> old(Remaining()) == []
      ensures range.None? ==> offset == old(offset) && nextNumber == old(nextNumber)
      ensures range.None? ==> Remaining() == []
      ensures range.Some? ==> old(Remaining()) == [range.value] + Remaining()
    {
      if offset == size {
        return None;
      }
      var partSize := Min(size - offset, PART_SIZE);
      range := Some(DownloadRange(nextNumber, offset, partSize));
      offset := offset + partSize;
      nextNumber := Min(nextNumber + 1, U32_MAX);
    }
  }

  /** Draining the iterator gives the planned parts, each once and in order. */
  method Collect(plan: RangePlan) returns (ranges: seq<DownloadRange>)
    requires plan.Valid()
    modifies plan
    ensures plan.Valid() && plan.Remaining() == []
    ensures ranges == old(plan.Remaining())
  {
    ranges := [];
    ghost var rest := plan.Remaining();
    while true
      invariant plan.Valid()
      invariant rest == plan.Remaining()
      invariant old(plan.Remaining()) == ranges + rest
      decreases |rest|
    {
      var next := plan.Next();
      if next.None? {
        return;
      }
      MoveHead(ranges, next.value, plan.Remaining());
      ranges := ranges + [next.value];
      rest := plan.Remaining();
    }
  }

  lemma {:induction false} MoveHead(front: seq<DownloadRange>, head: DownloadRange, rest: seq<DownloadRange>)
    ensures front + ([head] + rest) == front + [head] + rest
  {
  }

  // ----- The headers -----

  /** The `Range` request header. */
  function Header(range: DownloadRange): string
    requires range.Checked()
  {
    "bytes=" + Decimal(range.offset) + "-" + Decimal(range.End() - 1)
  }

  function ExpectedContentRange(range: DownloadRange, total: nat): string
    requires range.Checked()
  {
    "bytes " + Decimal(range.offset) + "-" + Decimal(range.End() - 1) + "/" + Decimal(total)
  }

  const RANGE_MISMATCH := "range response must return HTTP 206 and the exact Content-Range"

  function Validate(range: DownloadRange, status: nat, contentRange: Option<string>, total: nat): Result<(), string>
    requires range.Checked()
  {
    if status != 206
       || contentRange.None?
       || Trim(contentRange.value, IsSpace) != ExpectedContentRange(range, total)
    then Failure(RANGE_MISMATCH)
    else Success(())
  }

  // An independent reading of the header grammars.

  datatype ContentRange = ContentRange(first: string, last: string, total: string) {
    predicate Numerals() {
      IsNumeral(first) && IsNumeral(last) && IsNumeral(total)
    }

    predicate Canonical() {
      IsCanonical(first) && IsCanonical(last) && IsCanonical(total)
    }
  }

  /** Splits `prefix first "-" last` into its two numerals. */
  function ParseInterval(prefix: string, s: string): Option<(string, string)> {
    if !StartsWith(s, prefix) then None
    else
      var rest := s[|prefix|..];
      var dash := IndexOf(rest, '-');
      if dash == |rest| || !IsNumeral(rest[..dash]) || !IsNumeral(rest[dash + 1..]) then None
      else Some((rest[..dash], rest[dash + 1..]))
  }

  /** `bytes first-last/complete`, RFC 9110 section 14.4. */
  function ParseContentRange(s: string): Option<ContentRange> {
    var slash := IndexOf(s, '/');
    if slash == |s| || !IsNumeral(s[slash + 1..]) then None
    else
      match ParseInterval("bytes ", s[..slash])
      case None => None
      case Some((first, last)) => Some(ContentRange(first, last, s[slash + 1..]))
  }

  /** A valid range ends no earlier than it starts and before the complete length (RFC 9110 section 14.4). */
  ghost predicate Denotes(r: ContentRange, first: nat, last: nat, total: nat) {
    r.Numerals() && Value(r.first) == first && Value(r.last) == last && Value(r.total) == total
  }

  lemma {:induction false} NumeralLacks(s: string, c: char)
    requires IsNumeral(s) && !IsDigit(c)
    ensures c !in s
  {
  }

  lemma {:induction false} ParsePrintedInterval(prefix: string, first: string, last: string)
    requires IsNumeral(first) && IsNumeral(last)
    ensures ParseInterval(prefix, prefix + first + "-" + last) == Some((first, last))
  {
    var s := prefix + first + "-" + last;
    NumeralLacks(first, '-');
    IndexOfMark(first, '-', last);
    assert s[|prefix|..] == first + ['-'] + last;
    assert (first + ['-'] + last)[..|first|] == first;
    assert (first + ['-'] + last)[|first| + 1..] == last;
  }

  function PrintContentRange(r: ContentRange): string {
    "bytes " + r.first + "-" + r.last + "/" + r.total
  }

  lemma {:induction false} ParsePrinted(r: ContentRange)
    requires r.Numerals()
    ensures ParseContentRange(PrintContentRange(r)) == Some(r)
  {
    var interval := "bytes " + r.first + "-" + r.last;
    NumeralLacks(r.first, '/');
    NumeralLacks(r.last, '/');
    assert '/' !in interval;
    IndexOfMark(interval, '/', r.total);
    var s := interval + ['/'] + r.total;
    assert PrintContentRange(r) == s;
    assert s[..|interval|] == interval && s[|interval| + 1..] == r.total;
    ParsePrintedInterval("bytes ", r.first, r.last);
  }

  lemma {:induction false} ParsedPrints(s: string)
    requires ParseContentRange(s).Some?
    ensures var r := ParseContentRange(s).value;
            r.Numerals() && s == PrintContentRange(r)
  {
  }

  /** The `Range` header reads back as exactly the planned interval, and only that interval prints it. */
  lemma {:induction false} HeaderReadsBack(range: DownloadRange)
    requires range.Checked()
    ensures var parsed := ParseInterval("bytes=", Header(range));
            && parsed.Some? && IsNumeral(parsed.value.0) && IsNumeral(parsed.value.1)
            && Value(parsed.value.0) == range.offset && Value(parsed.value.1) == range.End() - 1
            && range.offset <= range.End() - 1 < 18_446_744_073_709_551_615
  {
    ParsePrintedInterval("bytes=", Decimal(range.offset), Decimal(range.End() - 1));
    ValueOfDecimal(range.offset);
    ValueOfDecimal(range.End() - 1);
  }

  lemma {:induction false} CanonicalNumeral(s: string, n: nat)
    requires IsNumeral(s)
    ensures s == Decimal(n) <==> IsCanonical(s) && Value(s) == n
  {
    ValueOfDecimal(n);
    if IsCanonical(s) {
      DecimalOfValue(s);
    }
  }

  /**
   A response passes validation exactly when its status is 206 and its trimmed Content-Range parses,
   without superfluous zeros, to this range's first byte, last byte and complete length.
   */
  lemma {:induction false} ValidateIsFaithful(range: DownloadRange, status: nat, contentRange: Option<string>,
                                              total: nat)
    requires range.Checked()
    ensures Validate(range, status, contentRange, total).Success?
            <==> && status == 206
                 && contentRange.Some?
                 && var parsed := ParseContentRange(Trim(contentRange.value, IsSpace));
                    parsed.Some? && parsed.value.Canonical()
                    && Denotes(parsed.value, range.offset, range.End() - 1, total)
    ensures Validate(range, status, contentRange, total).Failure? ==>
              Validate(range, status, contentRange, total).error
              == "range response must return HTTP 206 and the exact Content-Range"
  {
    if status == 206 && contentRange.Some? {
      var text := Trim(contentRange.value, IsSpace);
      var expected := ContentRange(Decimal(range.offset), Decimal(range.End() - 1), Decimal(total));
      ParsePrinted(expected);
      assert ExpectedContentRange(range, total) == PrintContentRange(expected);
      CanonicalNumeral(expected.first, range.offset);
      CanonicalNumeral(expected.last, range.End() - 1);
      CanonicalNumeral(expected.total, total);
      var parsed := ParseContentRange(text);
      if parsed.Some? {
        ParsedPrints(text);
        CanonicalNumeral(parsed.value.first, range.offset);
        CanonicalNumeral(parsed.value.last, range.End() - 1);
        CanonicalNumeral(parsed.value.total, total);
      }
    }
  }

  /** No two different parts of one plan accept the same response. */
  lemma {:induction false} PlanAcceptsApart(size: nat, j: nat, k: nat, status: nat, contentRange: Option<string>)
    requires size <= U64_MAX && j < PartCount(size) && k < PartCount(size)
    requires Validate(Part(size, j), status, contentRange, size).Success?
    requires Validate(Part(size, k), status, contentRange, size).Success?
    ensures j == k
  {
    ValidateIsFaithful(Part(size, j), status, contentRange, size);
    ValidateIsFaithful(Part(size, k), status, contentRange, size);
  }

  /** Only white space around the exact text is forgiven. */
  lemma {:induction false} PaddingIsForgiven(range: DownloadRange, before: string, after: string, total: nat)
    requires range.Checked() && AllSpace(before, IsSpace) && AllSpace(after, IsSpace)
    ensures Validate(range, 206, Some(before + ExpectedContentRange(range, total) + after), total).Success?
  {
    var expected := ExpectedContentRange(range, total);
    assert expected[0] == 'b';
    assert expected[|expected| - 1] == Decimal(total)[|Decimal(total)| - 1];
    TrimOfPadded(before, expected, after, IsSpace);
  }
}
