/**
 * The persistence gateway's local backend, its id generator and the choice between the
 * local and the remote backend.
 */
module DataService {
  import opened Wrappers
  import opened Text
  import opened Snippet

  /**
   * What `getItem('snippet_items_v1')`, the single key under which the whole collection is
   * serialised, followed by `JSON.parse` yields: nothing (a missing or empty
   * value), text that does not parse, a value that is not an array, or an array of records.
   */
  datatype Slot = Missing | Corrupt | NotArray | Items(records: seq<Record>)

  // ---------------------------------------------------------------------------------------
  // Ordering by recency

  /** Every record is at least as recently updated as every record after it. */
  predicate SortedDesc(s: seq<Record>) {
    forall i, j :: 0 <= i < j < |s| ==> s[i].updatedAt >= s[j].updatedAt
  }

  /** The records of `s` whose `updatedAt` is `t`, in their order in `s`. */
  function WithStamp(s: seq<Record>, t: int): (r: seq<Record>)
    ensures forall x :: x in r <==> x in s && x.updatedAt == t
  {
    if s == [] then []
    else if s[0].updatedAt == t then [s[0]] + WithStamp(s[1..], t)
    else WithStamp(s[1..], t)
  }

  /** Puts `x` in front of the first record of `s` that is not more recent than `x`. */
  function Insert(x: Record, s: seq<Record>): (r: seq<Record>)
    ensures multiset(r) == multiset(s) + multiset{x}
  {
    if s == [] || s[0].updatedAt <= x.updatedAt then [x] + s
    else
      var r := [s[0]] + Insert(x, s[1..]);
      assert s == [s[0]] + s[1..];
      r
  }

  /** Inserting into a newest-first sequence keeps it newest first. */
  lemma {:induction false} InsertSorted(x: Record, s: seq<Record>)
    requires SortedDesc(s)
    ensures SortedDesc(Insert(x, s))
  {
    if s != [] && s[0].updatedAt > x.updatedAt {
      var tail := Insert(x, s[1..]);
      SortedTail(s);
      InsertSorted(x, s[1..]);
      forall y | y in tail ensures s[0].updatedAt >= y.updatedAt {
        assert y in multiset(tail);
        if y != x {
          assert y in s[1..];
          SortedHeadIsNewest(s, y);
        }
      }
      ConsSorted(s[0], tail);
    }
  }

  /** A record at least as recent as every record of a newest-first sequence can go in front. */
  lemma ConsSorted(h: Record, s: seq<Record>)
    requires SortedDesc(s) && forall y :: y in s ==> h.updatedAt >= y.updatedAt
    ensures SortedDesc([h] + s)
  {
    var r := [h] + s;
    forall i, j | 0 <= i < j < |r| ensures r[i].updatedAt >= r[j].updatedAt {
      if i == 0 {
        assert r[j] in s;
      } else {
        assert r[i] == s[i - 1] && r[j] == s[j - 1];
      }
    }
  }

  /** Without a record of timestamp `t`, there is nothing to pick out for `t`. */
  lemma {:induction false} WithStampNone(s: seq<Record>, t: int)
    requires forall y :: y in s ==> y.updatedAt != t
    ensures WithStamp(s, t) == []
  {
    if s != [] {
      assert forall y :: y in s[1..] ==> y in s;
      WithStampNone(s[1..], t);
    }
  }

  /**
   * `parsed.sort((a, b) => b.updatedAt - a.updatedAt)`: a stable sort, newest first.
   * Sorting by insertion from the back keeps records with equal timestamps in stored order.
   */
  function SortByRecency(s: seq<Record>): seq<Record>
  {
    if s == [] then [] else Insert(s[0], SortByRecency(s[1..]))
  }

  /** Inserting `x` into a sorted sequence puts it before every record with its timestamp. */
  lemma {:induction false} InsertKeepsTies(x: Record, s: seq<Record>, t: int)
    requires SortedDesc(s)
    ensures WithStamp(Insert(x, s), t)
         == if x.updatedAt == t then [x] + WithStamp(s, t) else WithStamp(s, t)
  {
    if s == [] || s[0].updatedAt <= x.updatedAt {
      if x.updatedAt == t && s != [] && s[0].updatedAt < t {
        forall y | y in s ensures y.updatedAt != t {
          SortedHeadIsNewest(s, y);
        }
        WithStampNone(s, t);
      }
    } else {
      assert forall y :: y in s[1..] ==> y in s;
      InsertKeepsTies(x, s[1..], t);
      assert [s[0]] + Insert(x, s[1..]) == Insert(x, s);
      if x.updatedAt == t {
        assert s[0].updatedAt != t;
      }
    }
  }

  /**
   * The sort is newest first, a permutation of its input, and stable: for every timestamp,
   * the records carrying it keep their stored order.
   */
  lemma {:induction false} SortByRecencyCorrect(s: seq<Record>)
    ensures SortedDesc(SortByRecency(s))
    ensures multiset(SortByRecency(s)) == multiset(s)
    ensures forall t :: WithStamp(SortByRecency(s), t) == WithStamp(s, t)
  {
    if s != [] {
      SortByRecencyCorrect(s[1..]);
      InsertSorted(s[0], SortByRecency(s[1..]));
      assert s == [s[0]] + s[1..];
      forall t ensures WithStamp(SortByRecency(s), t) == WithStamp(s, t) {
        InsertKeepsTies(s[0], SortByRecency(s[1..]), t);
      }
    }
  }

  /** The first record of `s` heads `WithStamp(s, s[0].updatedAt)`; every other timestamp skips it. */
  lemma WithStampHead(s: seq<Record>)
    requires s != []
    ensures WithStamp(s, s[0].updatedAt) == [s[0]] + WithStamp(s[1..], s[0].updatedAt)
    ensures forall t :: t != s[0].updatedAt ==> WithStamp(s, t) == WithStamp(s[1..], t)
  {
  }

  /** The first record of a newest-first sequence is at least as recent as any of its records. */
  lemma SortedHeadIsNewest(s: seq<Record>, y: Record)
    requires SortedDesc(s) && y in s
    ensures s[0].updatedAt >= y.updatedAt
  {
    var k :| 0 <= k < |s| && s[k] == y;
    assert k == 0 || s[0].updatedAt >= s[k].updatedAt;
  }

  /** Two sequences whose first records share a timestamp and agree per timestamp share their first record and agree per timestamp after it. */
  lemma HeadsAgree(a: seq<Record>, b: seq<Record>)
    requires a != [] && b != [] && a[0].updatedAt == b[0].updatedAt
    requires forall t :: WithStamp(a, t) == WithStamp(b, t)
    ensures a[0] == b[0]
    ensures forall t :: WithStamp(a[1..], t) == WithStamp(b[1..], t)
  {
    WithStampHead(a);
    WithStampHead(b);
    var k := a[0].updatedAt;
    assert WithStamp(a, k)[0] == a[0] && WithStamp(b, k)[0] == b[0];
    forall t ensures WithStamp(a[1..], t) == WithStamp(b[1..], t) {
      if t == k {
        assert WithStamp(a[1..], t) == WithStamp(a, t)[1..];
        assert WithStamp(b[1..], t) == WithStamp(b, t)[1..];
      } else {
        assert WithStamp(a[1..], t) == WithStamp(a, t);
        assert WithStamp(b[1..], t) == WithStamp(b, t);
      }
    }
  }

  /**
   * Being newest first and keeping every timestamp's records in a given order determines a
   * sequence: two such sequences are equal. So a stable sort has exactly one result.
   */
  lemma {:induction false} StableOrderUnique(a: seq<Record>, b: seq<Record>)
    requires SortedDesc(a) && SortedDesc(b)
    requires forall t :: WithStamp(a, t) == WithStamp(b, t)
    ensures a == b
    decreases |a|
  {
    if a == [] {
      EmptyAgrees(a, b);
    } else if b == [] {
      EmptyAgrees(b, a);
    } else {
      HeadStampsAgree(a, b);
      HeadsAgree(a, b);
      SortedTail(a);
      SortedTail(b);
      StableOrderUnique(a[1..], b[1..]);
      assert a == [a[0]] + a[1..] && b == [b[0]] + b[1..];
    }
  }

  lemma SortedTail(s: seq<Record>)
    requires s != [] && SortedDesc(s)
    ensures SortedDesc(s[1..])
  {
    forall i, j | 0 <= i < j < |s| - 1 ensures s[1..][i].updatedAt >= s[1..][j].updatedAt {
      assert s[1..][i] == s[i + 1] && s[1..][j] == s[j + 1];
    }
  }

  /** A sequence that agrees per timestamp with the empty sequence is empty. */
  lemma EmptyAgrees(a: seq<Record>, b: seq<Record>)
    requires a == [] && forall t :: WithStamp(a, t) == WithStamp(b, t)
    ensures b == []
  {
    OwnStampNonEmpty(b);
  }

  lemma OwnStampNonEmpty(s: seq<Record>)
    ensures s != [] ==> s[0] in WithStamp(s, s[0].updatedAt)
  {
  }

  /** Two newest-first sequences that agree per timestamp begin with the same timestamp. */
  lemma HeadStampsAgree(a: seq<Record>, b: seq<Record>)
    requires a != [] && b != [] && SortedDesc(a) && SortedDesc(b)
    requires forall t :: WithStamp(a, t) == WithStamp(b, t)
    ensures a[0].updatedAt == b[0].updatedAt
  {
    var ka, kb := a[0].updatedAt, b[0].updatedAt;
    assert b[0] in WithStamp(b, kb);
    assert b[0] in WithStamp(a, kb);
    SortedHeadIsNewest(a, b[0]);
    assert a[0] in WithStamp(a, ka);
    assert a[0] in WithStamp(b, ka);
    SortedHeadIsNewest(b, a[0]);
  }

  /**
   * `SortByRecency` is the one stable newest-first order: any sequence that is newest first
   * and keeps each timestamp's records in the input's order is its result.
   */
  lemma SortByRecencyCharacterised(s: seq<Record>, r: seq<Record>)
    requires SortedDesc(r) && forall t :: WithStamp(r, t) == WithStamp(s, t)
    ensures r == SortByRecency(s)
  {
    SortByRecencyCorrect(s);
    StableOrderUnique(r, SortByRecency(s));
  }

  /** Sorting a sequence that is already newest first leaves it as it is. */
  lemma SortSortedUnchanged(s: seq<Record>)
    requires SortedDesc(s)
    ensures SortByRecency(s) == s
  {
    SortByRecencyCharacterised(s, s);
  }

  /** Leaving records out of a newest-first sequence keeps it newest first. */
  lemma {:induction false} SubsequenceSorted(a: seq<Record>, b: seq<Record>)
    requires IsSubsequence(a, b) && SortedDesc(b)
    ensures SortedDesc(a)
    ensures forall x :: x in a ==> x in b
    decreases |b|
  {
    if a != [] && b != [] {
      if a[0] == b[0] {
        SubsequenceSorted(a[1..], b[1..]);
        forall j | 0 < j < |a| ensures a[0].updatedAt >= a[j].updatedAt {
          assert a[j] in a[1..];
        }
        assert SortedDesc(a) by {
          forall i, j | 0 <= i < j < |a| ensures a[i].updatedAt >= a[j].updatedAt {
            if i > 0 {
              assert a[i] == a[1..][i - 1] && a[j] == a[1..][j - 1];
            }
          }
        }
      } else {
        SubsequenceSorted(a, b[1..]);
      }
      forall x | x in a ensures x in b {
        if x != a[0] {
          assert x in a[1..] || x in b[1..];
        }
      }
    }
  }

  /**
   * `localImpl.list()`: an empty list for a missing, unparsable or non-array value (it never
   * fails); otherwise the stored records, newest first, ties in stored order.
   */
  function Listed(slot: Slot): (r: seq<Record>)
    ensures !slot.Items? ==> r == []
    ensures slot.Items? ==> SortedDesc(r) && multiset(r) == multiset(slot.records)
                            && forall t :: WithStamp(r, t) == WithStamp(slot.records, t)
  {
    match slot
    case Items(rs) => SortByRecencyCorrect(rs); SortByRecency(rs)
    case _ => []
  }

  // ---------------------------------------------------------------------------------------
  // Record construction

  /** The record `create` builds: the description defaults to '' when absent or empty. */
  function NewRecord(id: string, p: Payload, now: int): (r: Record)
    ensures r.id == id && r.title == p.title && r.code == p.code
    ensures r.description == OrEmpty(p.description)
    ensures r.createdAt == now && r.updatedAt == now
    ensures r.extra == map[]
  {
    Record(id, p.title, OrEmpty(p.description), p.code, now, now, map[])
  }

  /**
   * The record `update` builds: `{...prev, title, description, code, updatedAt: now}`.
   * The id, the creation time and any further fields of `prev` survive.
   */
  function Revised(prev: Record, p: Payload, now: int): (r: Record)
    ensures r.id == prev.id && r.createdAt == prev.createdAt && r.extra == prev.extra
    ensures r.title == p.title && r.code == p.code
    ensures r.description == OrEmpty(p.description) && r.updatedAt == now
  {
    prev.(title := p.title, description := OrEmpty(p.description), code := p.code,
         updatedAt := now)
  }

  // ---------------------------------------------------------------------------------------
  // What each operation writes, as a function of what was stored

  /** The slot after `create` stored `item`: the item in front of the listed records. */
  function AfterCreate(slot: Slot, item: Record): Slot {
    Items([item] + Listed(slot))
  }

  /** The reply of `update` and the slot it leaves; nothing is written when the id is unknown. */
  function AfterUpdate(slot: Slot, id: string, p: Payload, now: int): (Result<Record>, Slot) {
    var list := Listed(slot);
    match FindIndex(list, id)
    case None => (Failure("Not found"), slot)
    case Some(i) =>
      var updated := Revised(list[i], p, now);
      (Success(updated), Items(list[i := updated]))
  }

  /** The slot after `delete`: the listed records without that id. */
  function AfterDelete(slot: Slot, id: string): Slot {
    Items(RemoveId(Listed(slot), id))
  }

  /** A create adds exactly one record, the new one, and keeps every record listed before. */
  lemma CreateAddsOne(slot: Slot, item: Record)
    ensures |Listed(AfterCreate(slot, item))| == |Listed(slot)| + 1
    ensures multiset(Listed(AfterCreate(slot, item))) == multiset(Listed(slot)) + multiset{item}
  {
    var r := Listed(AfterCreate(slot, item));
    assert multiset([item] + Listed(slot)) == multiset{item} + multiset(Listed(slot));
    assert |multiset(r)| == |r|;
  }

  /**
   * An update fails with "Not found" exactly when no listed record has the id, and then the
   * slot is left untouched.
   */
  lemma UpdateNotFound(slot: Slot, id: string, p: Payload, now: int)
    ensures AfterUpdate(slot, id, p, now).0.Failure?
        <==> forall k :: 0 <= k < |Listed(slot)| ==> Listed(slot)[k].id != id
    ensures AfterUpdate(slot, id, p, now).0.Failure? ==>
              AfterUpdate(slot, id, p, now) == (Failure("Not found"), slot)
  {
  }

  /**
   * A successful update rewrites only the first listed record with the id: the length and
   * every other position stay; that position keeps its id, creation time and further fields
   * and takes title, code, defaulted description and `now` from the call.
   */
  lemma UpdateChangesOnlyFirstMatch(slot: Slot, id: string, p: Payload, now: int)
    requires AfterUpdate(slot, id, p, now).0.Success?
    ensures var list := Listed(slot);
      var (reply, after) := AfterUpdate(slot, id, p, now);
      var i := FindIndex(list, id).value;
      after.Items? && |after.records| == |list|
      && (forall k :: 0 <= k < i ==> list[k].id != id)
      && list[i].id == id && after.records[i] == reply.value
      && reply.value.id == id && reply.value.createdAt == list[i].createdAt
      && reply.value.extra == list[i].extra && reply.value.updatedAt == now
      && reply.value.title == p.title && reply.value.code == p.code
      && reply.value.description == OrEmpty(p.description)
      && forall k :: 0 <= k < |list| && k != i ==> after.records[k] == list[k]
  {
  }

  /**
   * Storage stays newest first after a create exactly when the new record is at least as
   * recent as every listed record; the clock is an input, so this is not guaranteed.
   */
  lemma CreateKeepsNewestFirst(slot: Slot, item: Record)
    ensures SortedDesc(AfterCreate(slot, item).records)
        <==> forall k :: 0 <= k < |Listed(slot)| ==> item.updatedAt >= Listed(slot)[k].updatedAt
  {
    var list := Listed(slot);
    var r := AfterCreate(slot, item).records;
    assert forall k :: 0 <= k < |list| ==> r[k + 1] == list[k];
    if forall k :: 0 <= k < |list| ==> item.updatedAt >= list[k].updatedAt {
      forall j, k | 0 <= j < k < |r|
        ensures r[j].updatedAt >= r[k].updatedAt
      {
        if j > 0 {
          assert r[j] == list[j - 1] && r[k] == list[k - 1];
        } else {
          assert r[k] == list[k - 1];
        }
      }
    } else {
      var k :| 0 <= k < |list| && item.updatedAt < list[k].updatedAt;
      assert r[0].updatedAt < r[k + 1].updatedAt;
    }
  }

  /**
   * Replacing position `i` of a newest-first sequence keeps it newest first exactly when the
   * new record fits between its neighbours.
   */
  lemma ReplaceKeepsNewestFirst(s: seq<Record>, i: nat, x: Record)
    requires SortedDesc(s) && i < |s|
    ensures SortedDesc(s[i := x])
        <==> (i > 0 ==> s[i - 1].updatedAt >= x.updatedAt)
             && (i + 1 < |s| ==> x.updatedAt >= s[i + 1].updatedAt)
  {
    var r := s[i := x];
    if (i > 0 ==> s[i - 1].updatedAt >= x.updatedAt) && (i + 1 < |s| ==> x.updatedAt >= s[i + 1].updatedAt) {
      forall j, k | 0 <= j < k < |r|
        ensures r[j].updatedAt >= r[k].updatedAt
      {
        if j == i {
          assert k == i + 1 || s[i + 1].updatedAt >= s[k].updatedAt;
        } else if k == i {
          assert j == i - 1 || s[j].updatedAt >= s[i - 1].updatedAt;
        }
      }
    } else if i > 0 && s[i - 1].updatedAt < x.updatedAt {
      assert r[i - 1].updatedAt < r[i].updatedAt;
    } else {
      assert r[i].updatedAt < r[i + 1].updatedAt;
    }
  }

  /**
   * Storage stays newest first after a successful update exactly when `now` lies between the
   * timestamps of the rewritten record's neighbours in the listing.
   */
  lemma UpdateKeepsNewestFirst(slot: Slot, id: string, p: Payload, now: int)
    requires AfterUpdate(slot, id, p, now).0.Success?
    ensures var list := Listed(slot);
      var i := FindIndex(list, id).value;
      (SortedDesc(AfterUpdate(slot, id, p, now).1.records)
       <==> (i > 0 ==> list[i - 1].updatedAt >= now) && (i + 1 < |list| ==> now >= list[i + 1].updatedAt))
  {
    var list := Listed(slot);
    var i := FindIndex(list, id).value;
    ReplaceKeepsNewestFirst(list, i, Revised(list[i], p, now));
  }

  /**
   * A delete leaves no record with the id, and keeps the others, newest first, in the order
   * they were listed in.
   */
  lemma DeleteRemovesId(slot: Slot, id: string)
    ensures var after := AfterDelete(slot, id).records;
      (forall x :: x in after <==> x in Listed(slot) && x.id != id)
      && IsSubsequence(after, Listed(slot)) && SortedDesc(after)
      && Listed(AfterDelete(slot, id)) == after
  {
    var after := AfterDelete(slot, id).records;
    SubsequenceSorted(after, Listed(slot));
    SortSortedUnchanged(after);
  }

  /** Deleting the same id twice leaves the storage as the first delete left it. */
  lemma DeleteIdempotent(slot: Slot, id: string)
    ensures AfterDelete(AfterDelete(slot, id), id) == AfterDelete(slot, id)
  {
    DeleteRemovesId(slot, id);
    RemoveIdIdempotent(Listed(slot), id);
  }

  // ---------------------------------------------------------------------------------------
  // Identifiers

  /** One draw of `(Math.random() * 16) | 0`. */
  type Nibble = n: int | 0 <= n < 16

  /** The template `uuid` fills in: the 8-4-4-4-12 layout of a version-4 UUID. */
  const UuidTemplate: string := "xxxxxxxx-xxxx-4xxx-yxxx-xxxxxxxxxxxx"

  /** The characters the pattern `/[xy]/g` matches. */
  predicate IsPlaceholder(c: char) {
    c == 'x' || c == 'y'
  }

  /** How many characters of `t` the pattern matches. */
  function Placeholders(t: string): nat {
    if t == [] then 0 else (if IsPlaceholder(t[0]) then 1 else 0) + Placeholders(t[1..])
  }

  predicate IsLowerHex(c: char) {
    '0' <= c <= '9' || 'a' <= c <= 'f'
  }

  /** `v.toString(16)` for a value below 16. */
  function HexDigit(v: Nibble): (c: char)
    ensures IsLowerHex(c)
  {
    "0123456789abcdef"[v]
  }

  /** The value of a lower-case hexadecimal digit. */
  function HexValue(c: char): (v: Nibble)
    requires IsLowerHex(c)
    ensures HexDigit(v) == c
  {
    if c <= '9' then c as int - '0' as int else c as int - 'a' as int + 10
  }

  /** The replacement callback: `v = c === 'x' ? r : (r & 0x3) | 0x8`, in base 16. */
  function Replacement(c: char, r: Nibble): char {
    var v := if c == 'x' then r else (((r as bv4) & 3) | 8) as int;
    HexDigit(v)
  }

  /** What template character `c` may turn into. */
  predicate Fits(c: char, d: char) {
    if c == 'x' then IsLowerHex(d) else if c == 'y' then d in "89ab" else d == c
  }

  /** `t.replace(/[xy]/g, ...)`: each placeholder, in order, takes the next draw. */
  function Fill(t: string, draws: seq<Nibble>): (r: string)
    requires |draws| == Placeholders(t)
    ensures |r| == |t| && forall i :: 0 <= i < |t| ==> Fits(t[i], r[i])
  {
    if t == [] then []
    else
      if IsPlaceholder(t[0]) then [Replacement(t[0], draws[0])] + Fill(t[1..], draws[1..])
      else [t[0]] + Fill(t[1..], draws)
  }

  /** The draws that make `Fill` produce `s`: the inverse of `Fill`. */
  function Draws(t: string, s: string): (draws: seq<Nibble>)
    requires |s| == |t| && forall i :: 0 <= i < |t| ==> Fits(t[i], s[i])
    ensures |draws| == Placeholders(t)
  {
    if t == [] then []
    else
      assert Fits(t[0], s[0]);
      assert forall i :: 0 <= i < |t| - 1 ==> t[1..][i] == t[i + 1] && s[1..][i] == s[i + 1];
      var rest := Draws(t[1..], s[1..]);
      if IsPlaceholder(t[0]) then [DrawFor(t[0], s[0])] + rest else rest
  }

  /** The draw that turns placeholder `c` into `d`. */
  function DrawFor(c: char, d: char): (r: Nibble)
    requires IsPlaceholder(c) && Fits(c, d)
    ensures Replacement(c, r) == d
  {
    if c == 'x' then HexValue(d)
    else
      assert d == '8' || d == '9' || d == 'a' || d == 'b';
      var v := HexValue(d) - 8;
      assert (((v as bv4) & 3) | 8) as int == v + 8;
      v
  }

  /** Every string that fits the template comes out of `Fill` for some draws. */
  lemma {:induction false} FillDraws(t: string, s: string)
    requires |s| == |t| && forall i :: 0 <= i < |t| ==> Fits(t[i], s[i])
    ensures Fill(t, Draws(t, s)) == s
  {
    if t != [] {
      assert forall i :: 0 <= i < |t| - 1 ==> t[1..][i] == t[i + 1] && s[1..][i] == s[i + 1];
      FillDraws(t[1..], s[1..]);
      assert Fits(t[0], s[0]);
      assert s == [s[0]] + s[1..];
    }
  }

  /**
   * The layout of section 4.4 of RFC 4122 in its textual form: 36 characters, dashes at
   * 8, 13, 18 and 23, the version digit 4 at 14, a variant digit in {8, 9, a, b} at 19 and
   * lower-case hexadecimal digits everywhere else.
   */
  predicate IsVersion4(s: string) {
    |s| == 36 && s[8] == '-' && s[13] == '-' && s[18] == '-' && s[23] == '-'
    && s[14] == '4' && s[19] in "89ab"
    && forall i :: 0 <= i < 36 && i !in {8, 13, 14, 18, 19, 23} ==> IsLowerHex(s[i])
  }

  lemma TemplateShape()
    ensures |UuidTemplate| == 36
    ensures UuidTemplate[8] == '-' && UuidTemplate[13] == '-' && UuidTemplate[18] == '-'
    ensures UuidTemplate[23] == '-' && UuidTemplate[14] == '4' && UuidTemplate[19] == 'y'
    ensures forall i :: 0 <= i < 36 && i !in {8, 13, 14, 18, 19, 23} ==> UuidTemplate[i] == 'x'
  {
  }

  /** The strings that fit the template are exactly the version-4 strings. */
  lemma FitsTemplateIffVersion4(s: string)
    ensures (|s| == |UuidTemplate| && forall i :: 0 <= i < |s| ==> Fits(UuidTemplate[i], s[i]))
        <==> IsVersion4(s)
  {
    TemplateShape();
    if |s| == 36 && forall i :: 0 <= i < |s| ==> Fits(UuidTemplate[i], s[i]) {
      assert Fits(UuidTemplate[8], s[8]) && Fits(UuidTemplate[13], s[13]);
      assert Fits(UuidTemplate[18], s[18]) && Fits(UuidTemplate[23], s[23]);
      assert Fits(UuidTemplate[14], s[14]) && Fits(UuidTemplate[19], s[19]);
    }
    if IsVersion4(s) {
      forall i | 0 <= i < 36 ensures Fits(UuidTemplate[i], s[i]) {
        if i !in {8, 13, 14, 18, 19, 23} {
          assert UuidTemplate[i] == 'x';
        }
      }
    }
  }

  /** `uuid()` for the given draws. */
  function Uuid(draws: seq<Nibble>): string
    requires |draws| == Placeholders(UuidTemplate)
  {
    Fill(UuidTemplate, draws)
  }

  /** Every identifier `uuid` produces has the version-4 layout. */
  lemma UuidIsVersion4(draws: seq<Nibble>)
    requires |draws| == Placeholders(UuidTemplate)
    ensures IsVersion4(Uuid(draws))
  {
    FitsTemplateIffVersion4(Uuid(draws));
  }

  /** Every version-4 string is the identifier of some draws: `uuid` can produce any of them. */
  lemma UuidCoversVersion4(s: string)
    requires IsVersion4(s)
    ensures exists draws :: |draws| == Placeholders(UuidTemplate) && Uuid(draws) == s
  {
    FitsTemplate(s);
    var draws := Draws(UuidTemplate, s);
    UuidIsFill(draws, s);
  }

  /** A version-4 string fits the template position by position. */
  lemma FitsTemplate(s: string)
    requires IsVersion4(s)
    ensures |s| == |UuidTemplate| && forall i :: 0 <= i < |s| ==> Fits(UuidTemplate[i], s[i])
  {
    FitsTemplateIffVersion4(s);
  }

  lemma UuidIsFill(draws: seq<Nibble>, s: string)
    requires |s| == |UuidTemplate| && forall i :: 0 <= i < |s| ==> Fits(UuidTemplate[i], s[i])
    requires draws == Draws(UuidTemplate, s)
    ensures |draws| == Placeholders(UuidTemplate) && Uuid(draws) == s
  {
    FillDraws(UuidTemplate, s);
  }

  // ---------------------------------------------------------------------------------------
  // Backend choice

  /**
   * `apiBase`: the trimmed primary setting when that is non-empty, otherwise the trimmed
   * fallback setting; either may be unset.
   */
  function ApiBase(primary: Option<string>, fallback: Option<string>): (base: string)
    ensures base != [] ==> !IsSpace(base[0]) && !IsSpace(base[|base| - 1])
  {
    TrimEnds(OrEmpty(primary));
    TrimEnds(OrEmpty(fallback));
    var p := Trim(OrEmpty(primary));
    if p != "" then p else Trim(OrEmpty(fallback))
  }

  /** The backend `createDataService` hands out. */
  datatype Backend = Local | Api(base: string)

  /** `createDataService()`: the remote backend for a non-empty base address, else local. */
  function CreateDataService(primary: Option<string>, fallback: Option<string>): (b: Backend)
    ensures b.Api? <==> ApiBase(primary, fallback) != ""
    ensures b.Api? ==> b.base == ApiBase(primary, fallback)
  {
    var base := ApiBase(primary, fallback);
    if base != "" then Api(base) else Local
  }

  /** A setting that holds something besides white space. */
  predicate Visible(o: Option<string>) {
    exists k :: 0 <= k < |OrEmpty(o)| && !IsSpace(OrEmpty(o)[k])
  }

  /**
   * The remote backend is chosen exactly when one of the two settings holds a character
   * other than white space; a visible primary setting wins over the fallback.
   */
  lemma BackendChoice(primary: Option<string>, fallback: Option<string>)
    ensures CreateDataService(primary, fallback).Api? <==> Visible(primary) || Visible(fallback)
    ensures Visible(primary) ==> ApiBase(primary, fallback) == Trim(OrEmpty(primary))
    ensures !Visible(primary) ==> ApiBase(primary, fallback) == Trim(OrEmpty(fallback))
  {
    TrimNonEmptyIffVisible(OrEmpty(primary));
    TrimNonEmptyIffVisible(OrEmpty(fallback));
  }

  // ---------------------------------------------------------------------------------------
  // The local backend

  /**
   * `localImpl` over its storage slot. Every operation reads the whole collection through
   * `List` and writes it back whole through `Save`.
   */
  class LocalStore {
    var slot: Slot

    constructor (initial: Slot)
      ensures slot == initial
    {
      slot := initial;
    }

    /** `list()`: never fails; reading changes nothing. */
    method List() returns (items: seq<Record>)
      ensures items == Listed(slot)
    {
      match slot
      case Items(rs) => items := SortByRecency(rs);
      case _ => items := [];
    }

    /** `_save(items)`: overwrite the slot with the serialised array. */
    method Save(items: seq<Record>)
      modifies this
      ensures slot == Items(items)
    {
      slot := Items(items);
    }

    /** `create(payload)` at time `now`, with `draws` for the identifier. */
    method Create(p: Payload, now: int, draws: seq<Nibble>) returns (item: Record)
      requires |draws| == Placeholders(UuidTemplate)
      modifies this
      ensures item == NewRecord(Uuid(draws), p, now) && IsVersion4(item.id)
      ensures slot == AfterCreate(old(slot), item)
    {
      UuidIsVersion4(draws);
      item := NewRecord(Uuid(draws), p, now);
      var list := List();
      Save([item] + list);
    }

    /** `update(id, payload)` at time `now`; "Not found" leaves the slot unwritten. */
    method Update(id: string, p: Payload, now: int) returns (r: Result<Record>)
      modifies this
      ensures (r, slot) == AfterUpdate(old(slot), id, p, now)
    {
      var list := List();
      var idx := FindIndex(list, id);
      if idx.None? {
        return Failure("Not found");
      }
      var updated := Revised(list[idx.value], p, now);
      Save(list[idx.value := updated]);
      r := Success(updated);
    }

    /** `delete(id)`: always succeeds, whether or not the id was stored. */
    method Delete(id: string) returns (ok: bool)
      modifies this
      ensures ok
      ensures slot == AfterDelete(old(slot), id)
    {
      var list := List();
      Save(RemoveId(list, id));
      ok := true;
    }
  }
}
