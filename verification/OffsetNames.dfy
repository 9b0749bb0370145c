/**
  How a partition's offset, and the record that ddi has taken an app_id over, are named among
  the `txn` actions of a Delta table (src/fence.rs:77-143).
*/
module OffsetNames {
  import opened Basics

  const I32_MIN: int := -0x8000_0000
  const I32_MAX: int := 0x7fff_ffff

  predicate InI32(n: int) {
    I32_MIN <= n <= I32_MAX
  }

  function TxnAppId(appId: string, partition: int): string {
    appId + "-" + IntText(partition)
  }

  function TakeoverMarkerAppId(appId: string): string {
    appId + ".ddi"
  }

  /** The partition `txnAppId` holds the offset of for `appId`: `p` for `<appId>-<p>`. */
  function PartitionOf(appId: string, txnAppId: string): Option<int> {
    var prefix := appId + "-";
    if !(prefix <= txnAppId) then None
    else
      var digits := txnAppId[|prefix|..];
      if |digits| == 0 || !AllDigits(digits) then None
      else if NatValue(digits) > I32_MAX then None
      else Some(NatValue(digits))
  }

  /** Cut at the dash before its digits, a name has one reading. */
  lemma DashCut(s: string, d: string, t: string, e: string)
    requires AllDigits(d) && AllDigits(e)
    requires s + "-" + d == t + "-" + e
    ensures s == t && d == e
  {
    var whole := s + "-" + d;
    assert whole == t + "-" + e;
    assert |s| + |d| == |t| + |e|;
    assert whole[|s|] == '-' && whole[|t|] == '-';
    assert forall i | |s| < i < |whole| :: whole[i] == d[i - |s| - 1];
    assert forall i | |t| < i < |whole| :: whole[i] == e[i - |t| - 1];
    assert whole[..|s|] == s && whole[..|t|] == t;
    assert whole[|s| + 1..] == d && whole[|t| + 1..] == e;
  }

  function Magnitude(p: int): nat {
    if p < 0 then -p else p
  }

  /** The app_id with the sign of the partition: what stands before the dash before the digits. */
  function Signed(appId: string, p: int): string {
    if p < 0 then appId + "-" else appId
  }

  lemma SameIdSameCut(a: string, p: int, b: string, q: int)
    ensures TxnAppId(a, p) == TxnAppId(b, q) <==> Signed(a, p) == Signed(b, q) && Magnitude(p) == Magnitude(q)
  {
    var (digitsP, digitsQ) := (NatText(Magnitude(p)), NatText(Magnitude(q)));
    assert TxnAppId(a, p) == Signed(a, p) + "-" + digitsP;
    assert TxnAppId(b, q) == Signed(b, q) + "-" + digitsQ;
    if TxnAppId(a, p) == TxnAppId(b, q) {
      DashCut(Signed(a, p), digitsP, Signed(b, q), digitsQ);
      NatTextRoundTrip(Magnitude(p));
      NatTextRoundTrip(Magnitude(q));
    }
  }

  /**
    Two names are one name only for one app_id's one partition, or where one of the partitions
    is negative and the other app_id ends in the dash that is its sign. Kafka numbers partitions
    from 0, so no two of its partitions' offsets ever share a name.
  */
  lemma TxnAppIdsCollide(a: string, p: int, b: string, q: int)
    ensures TxnAppId(a, p) == TxnAppId(b, q) <==>
            (a == b && p == q)
            || (p < 0 && q == -p && b == a + "-")
            || (q < 0 && p == -q && a == b + "-")
  {
    SameIdSameCut(a, p, b, q);
    assert a + "-" == b + "-" ==> a == b by {
      assert (a + "-")[..|a|] == a && (b + "-")[..|b|] == b;
      assert a + "-" == b + "-" ==> |a + "-"| == |b + "-"|;
    }
  }

  lemma {:induction false} PartitionOfInverts(appId: string, p: int)
    requires InI32(p)
    ensures PartitionOf(appId, TxnAppId(appId, p)) == if p >= 0 then Some(p) else None
  {
    var prefix := appId + "-";
    var id := TxnAppId(appId, p);
    assert id == prefix + IntText(p);
    assert id[|prefix|..] == IntText(p);
    if p >= 0 {
      NatTextRoundTrip(p);
    } else {
      assert IntText(p)[0] == '-';
    }
  }

  /** What reads as a partition's name is that name, but for leading zeros. */
  lemma PartitionOfReads(appId: string, txnAppId: string)
    ensures PartitionOf(appId, txnAppId).Some? <==>
            exists digits: string :: |digits| > 0 && AllDigits(digits) && NatValue(digits) <= I32_MAX
                                     && txnAppId == appId + "-" + digits
  {
    var prefix := appId + "-";
    if PartitionOf(appId, txnAppId).Some? {
      var digits := txnAppId[|prefix|..];
      assert txnAppId == appId + "-" + digits;
    }
    forall digits: string | |digits| > 0 && AllDigits(digits) && NatValue(digits) <= I32_MAX
                            && txnAppId == appId + "-" + digits
      ensures PartitionOf(appId, txnAppId).Some?
    {
      assert txnAppId[..|prefix|] == prefix && txnAppId[|prefix|..] == digits;
    }
  }

  /** The takeover marker is never read for an offset, of any app_id, and is one per app_id. */
  lemma MarkerIsNoOffset(a: string, b: string, p: int)
    ensures TakeoverMarkerAppId(a) != TxnAppId(b, p)
    ensures PartitionOf(b, TakeoverMarkerAppId(a)).None?
    ensures TakeoverMarkerAppId(a) == TakeoverMarkerAppId(b) <==> a == b
  {
    var marker := TakeoverMarkerAppId(a);
    assert marker[|marker| - 1] == 'i';
    var digits := NatText(if p < 0 then -p else p);
    var id := TxnAppId(b, p);
    assert id[|id| - 1] == digits[|digits| - 1];
    var prefix := b + "-";
    if prefix <= marker {
      var rest := marker[|prefix|..];
      if |rest| > 0 {
        assert rest[|rest| - 1] == 'i';
      }
    }
    assert marker[..|a|] == a && TakeoverMarkerAppId(b)[..|b|] == b;
  }

  /** The names as kafka-delta-ingest and ddi spell them. */
  lemma NamesAsWritten()
    ensures TxnAppId("events", 3) == "events-3" && TxnAppId("events", 12) == "events-12"
    ensures TakeoverMarkerAppId("events") == "events.ddi"
  {
    assert NatText(3) == "3" && NatText(1) == "1" && NatText(12) == NatText(1) + "2";
  }
}
