/**
  The text one partition is known by: the value itself for one column, a JSON array of the values
  for several (src/dedup.rs). Strings are escaped as section 7 of RFC 8259 allows, the short
  escapes where there are any, and read back by a decoder written from the same section.
*/
module PartitionKey {
  import opened Basics

  // ------------------------------------------------------------------ escaping

  const QUOTE: char := '\"'
  const BACKSLASH: char := '\\'

  function HexDigit(n: nat): char
    requires n < 16
  {
    "0123456789abcdef"[n]
  }

  function HexValue(c: char): Option<nat> {
    if '0' <= c <= '9' then Some(c as nat - '0' as nat)
    else if 'a' <= c <= 'f' then Some(c as nat - 'a' as nat + 10)
    else None
  }

  /** The letter of a two-character escape. */
  function ShortEscape(c: char): Option<char> {
    if c == QUOTE || c == BACKSLASH then Some(c)
    else if c == '\U{08}' then Some('b')
    else if c == '\t' then Some('t')
    else if c == '\n' then Some('n')
    else if c == '\U{0C}' then Some('f')
    else if c == '\r' then Some('r')
    else None
  }

  function Unescaped(letter: char): Option<char> {
    if letter == QUOTE || letter == BACKSLASH || letter == '/' then Some(letter)
    else if letter == 'b' then Some('\U{08}')
    else if letter == 't' then Some('\t')
    else if letter == 'n' then Some('\n')
    else if letter == 'f' then Some('\U{0C}')
    else if letter == 'r' then Some('\r')
    else None
  }

  function EscapeChar(c: char): string {
    match ShortEscape(c)
    case Some(letter) => [BACKSLASH, letter]
    case None =>
      if (c as int) < 0x20 then
        [BACKSLASH, 'u', '0', '0', HexDigit(c as nat / 16), HexDigit(c as nat % 16)]
      else [c]
  }

  function Escape(s: string): string {
    if |s| == 0 then "" else EscapeChar(s[0]) + Escape(s[1..])
  }

  function Quoted(s: string): string {
    [QUOTE] + Escape(s) + [QUOTE]
  }

  function JsonItems(values: seq<string>): string
    requires |values| > 0
  {
    if |values| == 1 then Quoted(values[0]) else Quoted(values[0]) + "," + JsonItems(values[1..])
  }

  function JsonArray(values: seq<string>): string {
    if |values| == 0 then "[]" else "[" + JsonItems(values) + "]"
  }

  function PartitionText(values: seq<string>): string {
    if |values| == 1 then values[0] else JsonArray(values)
  }

  // ------------------------------------------------------------------ reading it back

  datatype Read<T> = Read(value: T, rest: string)

  /** One character of a string's inside, from the front of `text`. */
  function ReadChar(text: string): Option<Read<char>>
    ensures ReadChar(text).Some? ==> |ReadChar(text).value.rest| < |text|
  {
    if |text| == 0 || text[0] == QUOTE || (text[0] as int) < 0x20 then None
    else if text[0] != BACKSLASH then Some(Read(text[0], text[1..]))
    else if |text| < 2 then None
    else if text[1] != 'u' then
      match Unescaped(text[1])
      case Some(c) => Some(Read(c, text[2..]))
      case None => None
    else if |text| < 6 || text[2] != '0' || text[3] != '0' then None
    else
      match (HexValue(text[4]), HexValue(text[5]))
      case (Some(hi), Some(lo)) => Some(Read((16 * hi + lo) as char, text[6..]))
      case _ => None
  }

  /** The inside of a string, up to the quote that ends it. */
  function ReadString(text: string): Option<Read<string>>
    decreases |text|
  {
    if |text| > 0 && text[0] == QUOTE then Some(Read("", text[1..]))
    else
      match ReadChar(text)
      case None => None
      case Some(first) =>
        match ReadString(first.rest)
        case None => None
        case Some(more) => Some(Read([first.value] + more.value, more.rest))
  }

  lemma ReadCharReadsOne(c: char, rest: string)
    ensures ReadChar(EscapeChar(c) + rest) == Some(Read(c, rest))
    ensures EscapeChar(c)[0] != QUOTE
  {
    var (escaped, text) := (EscapeChar(c), EscapeChar(c) + rest);
    assert text[|escaped|..] == rest && forall i | 0 <= i < |escaped| :: text[i] == escaped[i];
    if ShortEscape(c).None? && (c as int) < 0x20 {
      assert |escaped| == 6 && HexValue(escaped[4]) == Some(c as nat / 16) && HexValue(escaped[5]) == Some(c as nat % 16);
    }
  }

  lemma {:induction false} ReadStringReadsBack(s: string, rest: string)
    ensures ReadString(Escape(s) + [QUOTE] + rest) == Some(Read(s, rest))
  {
    var text := Escape(s) + [QUOTE] + rest;
    if |s| == 0 {
      assert text == [QUOTE] + rest;
    } else {
      var more := Escape(s[1..]) + [QUOTE] + rest;
      assert text == EscapeChar(s[0]) + more;
      ReadCharReadsOne(s[0], more);
      ReadStringReadsBack(s[1..], rest);
      assert [s[0]] + s[1..] == s;
    }
  }

  /** Reading a quoted string from the front of a text gives the string back, whatever follows. */
  lemma QuotedReadsBack(s: string, rest: string)
    ensures var text := Quoted(s) + rest; text[0] == QUOTE && ReadString(text[1..]) == Some(Read(s, rest))
  {
    ReadStringReadsBack(s, rest);
    assert (Quoted(s) + rest)[1..] == Escape(s) + [QUOTE] + rest;
  }

  // ------------------------------------------------------------------ no two tuples share a text

  /** What follows the first item. */
  function JsonRest(values: seq<string>): string
    requires |values| > 0
  {
    if |values| == 1 then "" else "," + JsonItems(values[1..])
  }

  lemma FirstItemReadsBack(values: seq<string>)
    requires |values| > 0
    ensures ReadString(JsonItems(values)[1..]) == Some(Read(values[0], JsonRest(values)))
  {
    QuotedReadsBack(values[0], JsonRest(values));
    assert JsonItems(values) == Quoted(values[0]) + JsonRest(values);
  }

  lemma {:induction false} JsonItemsAreTheirs(a: seq<string>, b: seq<string>)
    requires |a| == |b| > 0 && JsonItems(a) == JsonItems(b)
    ensures a == b
  {
    FirstItemReadsBack(a);
    FirstItemReadsBack(b);
    assert a[0] == b[0] && JsonRest(a) == JsonRest(b);
    if |a| > 1 {
      assert JsonRest(a)[1..] == JsonItems(a[1..]) && JsonRest(b)[1..] == JsonItems(b[1..]);
      JsonItemsAreTheirs(a[1..], b[1..]);
      assert a == [a[0]] + a[1..] && b == [b[0]] + b[1..];
    }
  }

  /** No two tuples of the same columns share a text, whatever their values hold. */
  lemma PartitionTextIsInjective(a: seq<string>, b: seq<string>)
    requires |a| == |b|
    ensures PartitionText(a) == PartitionText(b) <==> a == b
  {
    if PartitionText(a) == PartitionText(b) && |a| > 1 {
      assert JsonArray(a)[1..|JsonArray(a)| - 1] == JsonItems(a);
      assert JsonArray(b)[1..|JsonArray(b)| - 1] == JsonItems(b);
      JsonItemsAreTheirs(a, b);
    }
  }

  /** One column is its own text; several are a JSON array, quotes, commas and brackets. */
  lemma TextsAsWritten(a: string, b: string)
    requires (forall i | 0 <= i < |a| :: IsPlain(a[i])) && forall i | 0 <= i < |b| :: IsPlain(b[i])
    ensures PartitionText([a]) == a && PartitionText([a, b]) == "[\"" + a + "\",\"" + b + "\"]"
  {
    Plain(a);
    Plain(b);
    assert [a, b][1..] == [b];
    assert JsonItems([a, b]) == Quoted(a) + "," + Quoted(b);
    assert PartitionText([a, b]) == "[" + (Quoted(a) + "," + Quoted(b)) + "]";
  }

  /** What must be escaped is: a quote, a backslash and what is below a space, the short way where there is one. */
  lemma EscapesAsWritten()
    ensures EscapeChar(QUOTE) == "\\\"" && EscapeChar(BACKSLASH) == "\\\\" && EscapeChar('\n') == "\\n" && EscapeChar('\t') == "\\t"
    ensures EscapeChar('\r') == "\\r" && EscapeChar('\U{08}') == "\\b" && EscapeChar('\U{0C}') == "\\f"
    ensures EscapeChar('\U{01}') == "\\u0001" && EscapeChar('\U{1F}') == "\\u001f"
  {
  }

  predicate IsPlain(c: char) {
    c != QUOTE && c != BACKSLASH && (c as int) >= 0x20
  }

  lemma {:induction false} Plain(s: string)
    requires forall i | 0 <= i < |s| :: IsPlain(s[i])
    ensures Escape(s) == s
  {
    if |s| > 0 {
      Plain(s[1..]);
      assert s == [s[0]] + s[1..];
    }
  }

  // ------------------------------------------------------------------ distinct tuples

  const U32_MAX: nat := 0xFFFF_FFFF

  type Column = seq<Option<string>>

  predicate SameLength(columns: seq<Column>) {
    forall c | 0 <= c < |columns| :: |columns[c]| == |columns[0]|
  }

  function RowCount(columns: seq<Column>): nat {
    if |columns| == 0 then 0 else |columns[0]|
  }

  predicate HasNull(columns: seq<Column>, i: nat)
    requires SameLength(columns) && i < RowCount(columns)
  {
    exists c | 0 <= c < |columns| :: columns[c][i].None?
  }

  function Tuple(columns: seq<Column>, i: nat): (t: seq<string>)
    requires SameLength(columns) && i < RowCount(columns) && !HasNull(columns, i)
    ensures |t| == |columns|
  {
    seq(|columns|, c requires 0 <= c < |columns| => columns[c][i].value)
  }

  /** `t` is row `i`'s place: nowhere with a null in it, and otherwise that of its own tuple's text. */
  predicate PlacedAt(columns: seq<Column>, texts: seq<string>, t: nat, i: nat)
    requires SameLength(columns) && i < RowCount(columns)
  {
    if HasNull(columns, i) then t == U32_MAX
    else t < |texts| && texts[t] == PartitionText(Tuple(columns, i))
  }

  predicate Distinct(texts: seq<string>) {
    forall j, k | 0 <= j < k < |texts| :: texts[j] != texts[k]
  }

  /** The tuples seen, in the order their texts were written. */
  predicate Seen(seen: map<seq<string>, nat>, tuples: seq<seq<string>>, texts: seq<string>, arity: nat) {
    && |tuples| == |texts|
    && (forall k | 0 <= k < |texts| :: |tuples[k]| == arity && tuples[k] in seen && texts[k] == PartitionText(tuples[k]))
    && (forall t | t in seen :: seen[t] < |tuples| && tuples[seen[t]] == t)
  }

  lemma NewTextIsNew(seen: map<seq<string>, nat>, tuples: seq<seq<string>>, texts: seq<string>, t: seq<string>)
    requires Seen(seen, tuples, texts, |t|) && t !in seen
    ensures PartitionText(t) !in texts
  {
    if k :| 0 <= k < |texts| && texts[k] == PartitionText(t) {
      PartitionTextIsInjective(tuples[k], t);
    }
  }

  lemma SeenGrows(seen: map<seq<string>, nat>, tuples: seq<seq<string>>, texts: seq<string>, t: seq<string>)
    requires Seen(seen, tuples, texts, |t|) && t !in seen && Distinct(texts)
    ensures Seen(seen[t := |texts|], tuples + [t], texts + [PartitionText(t)], |t|)
    ensures Distinct(texts + [PartitionText(t)])
  {
    NewTextIsNew(seen, tuples, texts, t);
  }

  lemma StaysPlaced(columns: seq<Column>, texts: seq<string>, more: seq<string>, at: seq<nat>)
    requires SameLength(columns) && |at| <= RowCount(columns) && texts <= more
    ensures forall k | 0 <= k < |at| && PlacedAt(columns, texts, at[k], k) :: PlacedAt(columns, more, at[k], k)
  {
  }

  /** The tuples met so far and their texts. */
  datatype Known = Known(seen: map<seq<string>, nat>, texts: seq<string>, ghost tuples: seq<seq<string>>) {
    ghost predicate Valid(arity: nat) {
      Seen(seen, tuples, texts, arity) && Distinct(texts)
    }
  }

  /** The place of `tuple`, which is new at the end if it was not met before. */
  method PlaceOf(known: Known, tuple: seq<string>) returns (t: nat, more: Known)
    ensures known.texts <= more.texts && |more.texts| <= |known.texts| + 1
    ensures known.Valid(|tuple|) && |known.texts| <= U32_MAX ==>
              more.Valid(|tuple|) && t < |more.texts| && more.texts[t] == PartitionText(tuple)
  {
    if tuple in known.seen {
      return known.seen[tuple], known;
    }
    t := |known.texts| % (U32_MAX + 1);
    more := Known(known.seen[tuple := t], known.texts + [PartitionText(tuple)], known.tuples + [tuple]);
    if known.Valid(|tuple|) && |known.texts| <= U32_MAX {
      assert t == |known.texts|;
      SeenGrows(known.seen, known.tuples, known.texts, tuple);
    }
  }

  /** Row `i`'s place. */
  method PlaceOfRow(columns: seq<Column>, known: Known, i: nat) returns (t: nat, more: Known)
    requires SameLength(columns) && i < RowCount(columns)
    ensures known.texts <= more.texts && |more.texts| <= |known.texts| + 1
    ensures known.Valid(|columns|) && |known.texts| <= U32_MAX ==>
              more.Valid(|columns|) && PlacedAt(columns, more.texts, t, i)
  {
    if HasNull(columns, i) {
      return U32_MAX, known;
    }
    t, more := PlaceOf(known, Tuple(columns, i));
  }

  /**
    Each distinct tuple of the columns' values as its text, and per row the place of its own;
    the largest 32-bit number for a row with a null. Places are 32 bits wide, so exact for any
    batch of fewer rows than that.
  */
  method DistinctTuples(columns: seq<Column>) returns (texts: seq<string>, at: seq<nat>)
    requires SameLength(columns)
    ensures |at| == RowCount(columns)
    ensures RowCount(columns) <= U32_MAX ==>
              Distinct(texts) && forall i | 0 <= i < |at| :: PlacedAt(columns, texts, at[i], i)
  {
    var n := RowCount(columns);
    var known := Known(map[], [], []);
    at := [];
    for i := 0 to n
      invariant |at| == i && |known.texts| <= i
      invariant n <= U32_MAX ==> known.Valid(|columns|)
      invariant n <= U32_MAX ==> forall k | 0 <= k < i :: PlacedAt(columns, known.texts, at[k], k)
    {
      var t, more := PlaceOfRow(columns, known, i);
      StaysPlaced(columns, known.texts, more.texts, at);
      known, at := more, at + [t];
    }
    texts := known.texts;
  }

  /** The partition columns of some rows; several columns' texts are built on the first lookup. */
  class PartitionTexts {
    const columns: seq<Column>
    var tuples: Option<(seq<string>, seq<nat>)>

    ghost predicate Valid()
      reads this
    {
      && SameLength(columns) && RowCount(columns) <= U32_MAX
      && (tuples.Some? ==>
            && |tuples.value.1| == RowCount(columns)
            && forall i | 0 <= i < RowCount(columns) :: PlacedAt(columns, tuples.value.0, tuples.value.1[i], i))
    }

    constructor (columns: seq<Column>)
      requires SameLength(columns) && RowCount(columns) <= U32_MAX
      ensures Valid() && this.columns == columns
    {
      this.columns := columns;
      tuples := None;
    }

    /** Row `i`'s partition: the first lookup's answer and every later one are the same text. */
    method With(i: nat) returns (text: string)
      requires Valid() && i < RowCount(columns) && !HasNull(columns, i)
      modifies this
      ensures Valid() && text == PartitionText(Tuple(columns, i))
    {
      if |columns| == 1 {
        return columns[0][i].value;
      }
      if tuples.None? {
        var texts, at := DistinctTuples(columns);
        tuples := Some((texts, at));
      }
      var (texts, at) := tuples.value;
      assert PlacedAt(columns, texts, at[i], i);
      text := texts[at[i]];
    }
  }
}
