/**
  Per-file statistics as bounds, and what may be concluded from one that is truncated or only near
  the value it stands for (src/stats.rs).
*/
module Bounds {
  import opened Basics

  /** A value of a timestamp column, or a statistic of one; the variants never mix in one column. */
  datatype Bound = Int(n: int) | Float(x: real) | Text(s: string)

  // ------------------------------------------------------------------ the order

  predicate TextLess(a: string, b: string) {
    |b| > 0 && (|a| == 0 || a[0] < b[0] || (a[0] == b[0] && TextLess(a[1..], b[1..])))
  }

  predicate Less(a: Bound, b: Bound) {
    match (a, b)
    case (Int(m), Int(n)) => m < n
    case (Float(x), Float(y)) => x < y
    case (Text(s), Text(t)) => TextLess(s, t)
    case (Int(_), _) => true
    case (Float(_), Text(_)) => true
    case _ => false
  }

  lemma {:induction false} TextLessIsTotal(a: string, b: string)
    ensures TextLess(a, b) || a == b || TextLess(b, a)
    ensures !(TextLess(a, b) && TextLess(b, a))
  {
    if |a| > 0 && |b| > 0 && a[0] == b[0] {
      TextLessIsTotal(a[1..], b[1..]);
      if a[1..] == b[1..] {
        assert a == [a[0]] + a[1..] && b == [b[0]] + b[1..];
      }
    }
  }

  lemma {:induction false} TextLessIsTransitive(a: string, b: string, c: string)
    requires TextLess(a, b) && TextLess(b, c)
    ensures TextLess(a, c)
  {
    if |a| > 0 && a[0] == b[0] == c[0] {
      TextLessIsTransitive(a[1..], b[1..], c[1..]);
    }
  }

  /** `Less` is a strict total order. */
  lemma LessIsTotal(a: Bound, b: Bound)
    ensures Less(a, b) || a == b || Less(b, a)
    ensures !(Less(a, b) && Less(b, a))
  {
    if a.Text? && b.Text? {
      TextLessIsTotal(a.s, b.s);
    }
  }

  lemma LessIsTransitive(a: Bound, b: Bound, c: Bound)
    requires Less(a, b) && Less(b, c)
    ensures Less(a, c)
  {
    if a.Text? && b.Text? && c.Text? {
      TextLessIsTransitive(a.s, b.s, c.s);
    }
  }

  /** A value not above one that is below `c` is below `c`, and so on the other side. */
  lemma NotAboveIsBelow(a: Bound, b: Bound, c: Bound)
    ensures !Less(b, a) && Less(b, c) ==> Less(a, c)
    ensures Less(a, b) && !Less(c, b) ==> Less(a, c)
  {
    LessIsTotal(a, b);
    LessIsTotal(b, c);
    if Less(a, b) && Less(b, c) {
      LessIsTransitive(a, b, c);
    }
  }

  // ------------------------------------------------------------------ truncated text

  predicate StartsWith(s: string, prefix: string) {
    prefix <= s
  }

  /** Below whatever the truncated text `a` stands for: `a` is smaller, and no prefix of `b`. */
  predicate ProvablyBelow(a: Bound, b: Bound) {
    if a.Text? && b.Text? then TextLess(a.s, b.s) && !StartsWith(b.s, a.s) else Less(a, b)
  }

  lemma {:induction false} ExtensionStaysBelow(a: string, more: string, b: string)
    requires TextLess(a, b) && !StartsWith(b, a)
    ensures TextLess(a + more, b)
  {
    if |a| > 0 && a[0] == b[0] {
      assert (a + more)[1..] == a[1..] + more;
      assert StartsWith(b[1..], a[1..]) ==> StartsWith(b, a);
      ExtensionStaysBelow(a[1..], more, b[1..]);
    }
  }

  /** A truncated text is provably below another exactly when everything it can stand for is. */
  lemma ProvablyBelowIsExact(a: string, b: string)
    ensures ProvablyBelow(Text(a), Text(b)) <==> forall more: string :: TextLess(a + more, b)
  {
    if ProvablyBelow(Text(a), Text(b)) {
      forall more: string ensures TextLess(a + more, b) {
        ExtensionStaysBelow(a, more, b);
      }
    } else {
      assert a + "" == a;
      if TextLess(a, b) {
        assert a + b[|a|..] == b;
        TextLessIsTotal(b, b);
        assert !TextLess(a + b[|a|..], b);
      }
    }
  }

  lemma ProvablyBelowIsLess(a: Bound, b: Bound)
    requires ProvablyBelow(a, b)
    ensures Less(a, b)
  {
  }

  lemma {:induction false} PrefixIsNotAbove(prefix: string, s: string)
    requires StartsWith(s, prefix)
    ensures !TextLess(s, prefix)
  {
    if |prefix| > 0 {
      assert s[1..][..|prefix| - 1] == prefix[1..];
      PrefixIsNotAbove(prefix[1..], s[1..]);
    }
  }

  // ------------------------------------------------------------------ slack

  const TRUNCATED_MICROS: int := 999
  const I64_MIN: int := -0x8000_0000_0000_0000
  const I64_MAX: int := 0x7FFF_FFFF_FFFF_FFFF

  predicate IsI64(n: int) {
    I64_MIN <= n <= I64_MAX
  }

  /**
    How far a bound may lie from its value. A decimal is near its statistic and near the mark read
    from it, by `stat` and `mark`, which `width` covers between them; a timestamp statistic may have
    been truncated to the millisecond; everything else is exact but for a text's truncation.
  */
  datatype Slack = Decimal(width: real, stat: real, mark: real) | Millisecond | NoSlack {
    predicate Valid() {
      Decimal? ==> stat >= 0.0 && mark >= 0.0 && stat + mark <= width
    }

    /** The lowest value `b` could stand for. */
    function Below(b: Bound): Bound {
      if Decimal? && b.Float? then Float(b.x - width) else b
    }

    /** The highest value `b` could stand for. */
    function Above(b: Bound): Bound {
      if Decimal? && b.Float? then Float(b.x + width)
      else if Millisecond? && b.Int? && b.n % 1000 == 0 then
        Int(if b.n + TRUNCATED_MICROS > I64_MAX then I64_MAX else b.n + TRUNCATED_MICROS)
      else b
    }
  }

  predicate Near(x: real, y: real, error: real) {
    x - y <= error && y - x <= error
  }

  /** `stat` is what some writer may record for the value `v`, of a column with this slack. */
  predicate MayRecord(slack: Slack, stat: Bound, v: Bound) {
    match (stat, v)
    case (Int(n), Int(m)) => IsI64(m) && (n == m || (slack.Millisecond? && n == m - m % 1000))
    case (Float(x), Float(y)) => if slack.Decimal? then Near(x, y, slack.stat) else x == y
    case (Text(s), Text(t)) => StartsWith(t, s)
    case _ => false
  }

  /**
    The readings are no wider than they must be: a timestamp's highest is one its statistic may stand
    for, every other bound but a decimal's is its own, and a decimal moves by its width.
  */
  lemma ReadingsAreTight(n: int, x: real, s: string)
    requires IsI64(n)
    ensures MayRecord(Millisecond, Int(n), Millisecond.Above(Int(n))) && Millisecond.Below(Int(n)) == Int(n)
    ensures NoSlack.Above(Int(n)) == Int(n) == NoSlack.Below(Int(n)) && NoSlack.Above(Text(s)) == Text(s) == NoSlack.Below(Text(s))
    ensures forall v: int :: MayRecord(Millisecond, Int(n), Int(v)) ==> v <= Millisecond.Above(Int(n)).n
    ensures forall d: Slack | d.Decimal? :: d.Above(Float(x)) == Float(x + d.width) && d.Below(Float(x)) == Float(x - d.width)
  {
  }

  /** Of numbers, provably below is below. */
  lemma NumbersCompareDirectly(m: int, n: int, x: real, y: real)
    ensures ProvablyBelow(Int(m), Int(n)) <==> m < n
    ensures ProvablyBelow(Float(x), Float(y)) <==> x < y
  {
  }

  /** `bound` is what the mark `v` reads as. */
  predicate ReadsAs(slack: Slack, bound: Bound, v: Bound) {
    match (bound, v)
    case (Float(x), Float(y)) => if slack.Decimal? then Near(x, y, slack.mark) else x == y
    case _ => bound == v
  }

  /** A maximum whose highest reading is provably below a mark's bound is below the mark. */
  lemma MaxBelowMark(slack: Slack, stat: Bound, v: Bound, bound: Bound, mark: Bound)
    requires slack.Valid() && MayRecord(slack, stat, v) && ReadsAs(slack, bound, mark)
    requires ProvablyBelow(slack.Above(stat), bound)
    ensures Less(v, mark)
  {
    if v.Text? && mark.Text? {
      ExtensionStaysBelow(stat.s, v.s[|stat.s|..], mark.s);
      assert stat.s + v.s[|stat.s|..] == v.s;
    }
  }

  /** A minimum whose lowest reading is above a mark's bound is above the mark. */
  lemma MinAboveMark(slack: Slack, stat: Bound, v: Bound, bound: Bound, mark: Bound)
    requires slack.Valid() && MayRecord(slack, stat, v) && ReadsAs(slack, bound, mark)
    requires Less(bound, slack.Below(stat))
    ensures Less(mark, v)
  {
    if v.Text? && mark.Text? {
      PrefixIsNotAbove(stat.s, v.s);
      NotAboveIsBelow(mark, stat, v);
    }
  }

  /**
    Plain `<`, with the slack taken on both sides, proves as much of anything but a text, and of
    a text that was not truncated.
  */
  lemma MaxPlainlyBelowMark(slack: Slack, stat: Bound, v: Bound, bound: Bound, mark: Bound)
    requires slack.Valid() && MayRecord(slack, stat, v) && ReadsAs(slack, bound, mark)
    requires Less(slack.Above(stat), slack.Below(bound)) && (v.Text? ==> stat == v)
    ensures Less(v, mark)
  {
  }

  /** Of a truncated text it does not: "b" is below "bb", and the value it stands for is above. */
  lemma PlainlyBelowMayLie()
    ensures var (stat, v, mark) := (Text("b"), Text("bc"), Text("bb"));
            && MayRecord(NoSlack, stat, v) && ReadsAs(NoSlack, mark, mark)
            && Less(NoSlack.Above(stat), NoSlack.Below(mark)) && Less(mark, v)
  {
    assert "bc"[..1] == "b" && "bc"[1..] == "c" && "bb"[1..] == "b" && "b"[1..] == "";
    assert TextLess("b", "c") && TextLess("", "b");
  }
}
