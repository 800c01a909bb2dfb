/**
 * uk.gov.nationalarchives.droid.signatureFile.FFSignatureFile (droid-integration
 * branch): turns the signatures that match a file into format hits, prunes hits
 * that a higher-priority hit overrides, checks the file name extension, and
 * prepares the signature model before use.
 *
 * The signature matcher (`isFileCompliant`) and the extension test of a format
 * (`hasMatchingExtension`) are parameters of the operations that use them.
 */
module FFSignatureFileModule {
  import opened Wrappers
  import opened JavaStrings

  /** A byte sequence of a signature, identified by its position reference ("BOFoffset", "EOFoffset", "Variable"). */
  datatype ByteSequence = ByteSequence(reference: string, id: int)

  /** A file format: its ID, the IDs of its internal signatures and the format IDs it has priority over. */
  datatype FileFormat = FileFormat(id: int, internalSignatureIds: seq<int>, hasPriorityOver: seq<int>)

  /** An internal signature: ID, `isSpecific`, its byte sequences and the formats it identifies. */
  datatype InternalSignature = InternalSignature(id: int, specific: bool, byteSequences: seq<ByteSequence>,
                                                 fileFormats: seq<FileFormat>)

  datatype HitType = PositiveGenericOrSpecific | Tentative

  /** A FileFormatHit: the format, the hit type, `isSpecific` and the identification warning. */
  datatype Hit = Hit(format: FileFormat, hitType: HitType, specific: bool, warning: string)

  /** The identification status a ByteReader records. */
  datatype Classification = NotClassified | PositiveIdent | TentativeIdent | NoIdent

  /** MessageDisplay.FILEEXTENSIONWARNING; its text is not part of this model. */
  const FILE_EXTENSION_WARNING := "FILEEXTENSIONWARNING"

  /** `isFileCompliant(targetFile)` for the file being identified. */
  type Compliance = InternalSignature -> bool

  /** `hasMatchingExtension(extension)` of a format. */
  type ExtensionMatch = (FileFormat, string) -> bool

  // ---------------------------------------------------------------------------
  // Positive hits

  /** The hits one compliant signature adds: one per associated format, in order. */
  function SignatureHits(sig: InternalSignature): (r: seq<Hit>)
    ensures |r| == |sig.fileFormats|
    ensures forall h :: h in r ==>
      h.format in sig.fileFormats && h.hitType == PositiveGenericOrSpecific && h.specific == sig.specific && h.warning == ""
  {
    seq(|sig.fileFormats|, k requires 0 <= k < |sig.fileFormats| =>
      Hit(sig.fileFormats[k], PositiveGenericOrSpecific, sig.specific, ""))
  }

  /** The hits the signature loop of `runFileIdentification` adds, in signature order. */
  function PositiveHits(sigs: seq<InternalSignature>, compliant: Compliance): seq<Hit>
  {
    if |sigs| == 0 then []
    else PositiveHits(sigs[..|sigs| - 1], compliant)
         + (if compliant(sigs[|sigs| - 1]) then SignatureHits(sigs[|sigs| - 1]) else [])
  }

  /** Some signature matches the file, so `setPositiveIdent` is called. */
  predicate AnyCompliant(sigs: seq<InternalSignature>, compliant: Compliance)
  {
    exists i :: 0 <= i < |sigs| && compliant(sigs[i])
  }

  /**
   * A positive hit is exactly a hit for some format of some compliant signature,
   * carrying that signature's `isSpecific` and no warning.
   */
  lemma {:induction false} PositiveHitsMembers(sigs: seq<InternalSignature>, compliant: Compliance, h: Hit)
    ensures h in PositiveHits(sigs, compliant) <==>
      exists i, k :: 0 <= i < |sigs| && 0 <= k < |sigs[i].fileFormats| && compliant(sigs[i])
        && h == Hit(sigs[i].fileFormats[k], PositiveGenericOrSpecific, sigs[i].specific, "")
  {
    if |sigs| > 0 {
      var init, last := sigs[..|sigs| - 1], sigs[|sigs| - 1];
      PositiveHitsMembers(init, compliant, h);
      if h in PositiveHits(sigs, compliant) && h !in PositiveHits(init, compliant) {
        var k :| 0 <= k < |SignatureHits(last)| && SignatureHits(last)[k] == h;
        assert sigs[|sigs| - 1] == last;
      }
      if exists i, k :: 0 <= i < |sigs| && 0 <= k < |sigs[i].fileFormats| && compliant(sigs[i])
           && h == Hit(sigs[i].fileFormats[k], PositiveGenericOrSpecific, sigs[i].specific, "") {
        var i, k :| 0 <= i < |sigs| && 0 <= k < |sigs[i].fileFormats| && compliant(sigs[i])
           && h == Hit(sigs[i].fileFormats[k], PositiveGenericOrSpecific, sigs[i].specific, "");
        if i < |sigs| - 1 {
          assert init[i] == sigs[i];
        } else {
          assert SignatureHits(last)[k] == h;
        }
      }
    }
  }

  /** A non-compliant signature adds nothing; a compliant one adds one hit per format. */
  lemma PositiveHitsAppend(sigs: seq<InternalSignature>, sig: InternalSignature, compliant: Compliance)
    ensures PositiveHits(sigs + [sig], compliant)
         == PositiveHits(sigs, compliant) + (if compliant(sig) then SignatureHits(sig) else [])
  {
    assert (sigs + [sig])[..|sigs|] == sigs;
  }

  // ---------------------------------------------------------------------------
  // Priority pruning

  /** The index of the first hit whose format has the given ID, or -1. */
  function FirstWithFormat(hits: seq<Hit>, formatId: int): (r: int)
    ensures -1 <= r < |hits|
    ensures r >= 0 ==> hits[r].format.id == formatId
    ensures forall k :: 0 <= k < |hits| && (r < 0 || k < r) ==> hits[k].format.id != formatId
  {
    if |hits| == 0 then -1
    else if hits[0].format.id == formatId then 0
    else var t := FirstWithFormat(hits[1..], formatId); if t < 0 then -1 else t + 1
  }

  /** The marks for one hit's priority list: the first hit with each listed format ID. */
  function MarksOfIds(hits: seq<Hit>, ids: seq<int>): (r: seq<int>)
  {
    if |ids| == 0 then []
    else
      var k := FirstWithFormat(hits, ids[|ids| - 1]);
      MarksOfIds(hits, ids[..|ids| - 1]) + (if k >= 0 then [k] else [])
  }

  /** `hitsToRemove` after the first `n` hits of the outer loop. */
  function MarksUpTo(hits: seq<Hit>, n: nat): seq<int>
    requires n <= |hits|
  {
    if n == 0 then [] else MarksUpTo(hits, n - 1) + MarksOfIds(hits, hits[n - 1].format.hasPriorityOver)
  }

  /** The unsorted list `hitsToRemove`, all marks computed against the unpruned hits. */
  function Marks(hits: seq<Hit>): seq<int>
  {
    MarksUpTo(hits, |hits|)
  }

  /** Some hit has priority over the format of hit `k`, and `k` is the first hit with that format. */
  ghost predicate Overridden(hits: seq<Hit>, k: int)
  {
    exists i, j :: Names(hits, i, j, k)
  }

  /** The `j`th format ID hit `i` has priority over first occurs at hit `k`. */
  predicate Names(hits: seq<Hit>, i: int, j: int, k: int)
  {
    0 <= i < |hits| && 0 <= j < |hits[i].format.hasPriorityOver|
    && FirstWithFormat(hits, hits[i].format.hasPriorityOver[j]) == k
  }

  lemma {:induction false} MarksOfIdsMembers(hits: seq<Hit>, ids: seq<int>, k: int)
    ensures k in MarksOfIds(hits, ids) <==> exists j :: 0 <= j < |ids| && k >= 0 && FirstWithFormat(hits, ids[j]) == k
  {
    if |ids| > 0 {
      var init := ids[..|ids| - 1];
      MarksOfIdsMembers(hits, init, k);
      assert forall j :: 0 <= j < |init| ==> init[j] == ids[j];
    }
  }

  lemma {:induction false} MarksUpToMembers(hits: seq<Hit>, n: nat, k: int)
    requires n <= |hits|
    ensures k in MarksUpTo(hits, n) <==> k >= 0 && exists i, j :: i < n && Names(hits, i, j, k)
  {
    if n > 0 {
      var ids := hits[n - 1].format.hasPriorityOver;
      MarksUpToMembers(hits, n - 1, k);
      MarksOfIdsMembers(hits, ids, k);
      if k in MarksOfIds(hits, ids) {
        var j :| 0 <= j < |ids| && k >= 0 && FirstWithFormat(hits, ids[j]) == k;
        assert Names(hits, n - 1, j, k);
      }
      if k >= 0 && exists i, j :: i < n && Names(hits, i, j, k) {
        var i, j :| i < n && Names(hits, i, j, k);
        if i == n - 1 {
          assert FirstWithFormat(hits, ids[j]) == k;
        }
      }
    }
  }

  /**
   * A hit is marked for removal iff it is the first hit with a format ID that
   * some hit has priority over; every mark is a valid hit index.
   */
  lemma MarksExactly(hits: seq<Hit>, k: int)
    ensures k in Marks(hits) <==> Overridden(hits, k) && k >= 0
    ensures k in Marks(hits) ==> 0 <= k < |hits|
  {
    MarksUpToMembers(hits, |hits|, k);
  }

  /** The while loop of the insertion sort: `x` goes after the last element not greater than it. */
  function Insert(s: seq<int>, x: int): (r: seq<int>)
    ensures |r| == |s| + 1
  {
    if |s| == 0 || s[|s| - 1] <= x then s + [x]
    else Insert(s[..|s| - 1], x) + [s[|s| - 1]]
  }

  /** `indexesOfHits` after the sort loop. */
  function InsertionSorted(s: seq<int>): (r: seq<int>)
    ensures |r| == |s|
  {
    if |s| == 0 then [] else Insert(InsertionSorted(s[..|s| - 1]), s[|s| - 1])
  }

  predicate Ascending(s: seq<int>)
  {
    forall i, j :: 0 <= i < j < |s| ==> s[i] <= s[j]
  }

  lemma InsertKeepsAscending(s: seq<int>, x: int)
    requires Ascending(s)
    ensures Ascending(Insert(s, x))
    ensures multiset(Insert(s, x)) == multiset(s) + multiset{x}
  {
    InsertAscending(s, x);
    InsertPermutes(s, x);
  }

  lemma {:induction false} InsertPermutes(s: seq<int>, x: int)
    ensures multiset(Insert(s, x)) == multiset(s) + multiset{x}
  {
    if |s| > 0 && s[|s| - 1] > x {
      var init, last := s[..|s| - 1], s[|s| - 1];
      InsertPermutes(init, x);
      assert s == init + [last];
    }
  }

  /** Inserting a value below a bound into a list below it stays below it. */
  lemma {:induction false} InsertBounded(s: seq<int>, x: int, bound: int)
    requires forall i :: 0 <= i < |s| ==> s[i] <= bound
    requires x <= bound
    ensures forall i :: 0 <= i < |Insert(s, x)| ==> Insert(s, x)[i] <= bound
  {
    if |s| > 0 && s[|s| - 1] > x {
      InsertBounded(s[..|s| - 1], x, bound);
    }
  }

  lemma {:induction false} InsertAscending(s: seq<int>, x: int)
    requires Ascending(s)
    ensures Ascending(Insert(s, x))
  {
    if |s| > 0 && s[|s| - 1] > x {
      var init, last := s[..|s| - 1], s[|s| - 1];
      InsertAscending(init, x);
      InsertBounded(init, x, last);
      var t := Insert(init, x);
      assert Insert(s, x) == t + [last];
      forall i, j | 0 <= i < j < |t + [last]| ensures (t + [last])[i] <= (t + [last])[j] {
        if j == |t| {
          assert (t + [last])[i] == t[i];
        }
      }
    }
  }

  /** The insertion sort gives the marks in ascending order, each exactly as often as before. */
  lemma InsertionSortedSorts(s: seq<int>)
    ensures Ascending(InsertionSorted(s))
    ensures multiset(InsertionSorted(s)) == multiset(s)
  {
    InsertionSortedAscending(s);
    InsertionSortedPermutes(s);
  }

  lemma {:induction false} InsertionSortedAscending(s: seq<int>)
    ensures Ascending(InsertionSorted(s))
  {
    if |s| > 0 {
      var init := s[..|s| - 1];
      InsertionSortedAscending(init);
      InsertAscending(InsertionSorted(init), s[|s| - 1]);
    }
  }

  lemma {:induction false} InsertionSortedPermutes(s: seq<int>)
    ensures multiset(InsertionSorted(s)) == multiset(s)
  {
    if |s| > 0 {
      var init, last := s[..|s| - 1], s[|s| - 1];
      var sortedInit := InsertionSorted(init);
      assert InsertionSorted(s) == Insert(sortedInit, last);
      InsertionSortedPermutes(init);
      InsertPermutes(sortedInit, last);
      assert s == init + [last];
      assert multiset(s) == multiset(init) + multiset{last};
    }
  }

  /** Where the shifting loop stops, `Insert` places `x`. */
  lemma {:induction false} InsertAt(s: seq<int>, x: int, j: nat)
    requires j <= |s|
    requires j == 0 || s[j - 1] <= x
    requires forall t :: j <= t < |s| ==> s[t] > x
    ensures Insert(s, x) == s[..j] + [x] + s[j..]
    decreases |s|
  {
    if |s| > j {
      InsertAt(s[..|s| - 1], x, j);
      assert s[..|s| - 1][..j] == s[..j];
      assert s[..|s| - 1][j..] + [s[|s| - 1]] == s[j..];
    }
  }

  /** The hits at positions `lo..hi` whose index is not in `removed`, in order. */
  function Kept(hits: seq<Hit>, removed: set<int>, lo: nat, hi: nat): (r: seq<Hit>)
    requires lo <= hi <= |hits|
    ensures |r| <= hi - lo
    decreases hi
  {
    if hi == lo then []
    else Kept(hits, removed, lo, hi - 1) + (if hi - 1 in removed then [] else [hits[hi - 1]])
  }

  /** The hits left after removing every marked index. */
  function Pruned(hits: seq<Hit>): seq<Hit>
  {
    Kept(hits, set k | k in Marks(hits), 0, |hits|)
  }

  lemma {:induction false} KeptConcat(hits: seq<Hit>, removed: set<int>, lo: nat, mid: nat, hi: nat)
    requires lo <= mid <= hi <= |hits|
    ensures Kept(hits, removed, lo, hi) == Kept(hits, removed, lo, mid) + Kept(hits, removed, mid, hi)
    decreases hi
  {
    if hi > mid {
      KeptConcat(hits, removed, lo, mid, hi - 1);
    }
  }

  lemma {:induction false} KeptAgree(hits: seq<Hit>, r1: set<int>, r2: set<int>, lo: nat, hi: nat)
    requires lo <= hi <= |hits|
    requires forall i :: lo <= i < hi ==> (i in r1 <==> i in r2)
    ensures Kept(hits, r1, lo, hi) == Kept(hits, r2, lo, hi)
    decreases hi
  {
    if hi > lo {
      KeptAgree(hits, r1, r2, lo, hi - 1);
    }
  }

  lemma {:induction false} KeptNoneRemoved(hits: seq<Hit>, removed: set<int>, lo: nat, hi: nat)
    requires lo <= hi <= |hits|
    requires forall i :: lo <= i < hi ==> i !in removed
    ensures Kept(hits, removed, lo, hi) == hits[lo..hi]
    decreases hi
  {
    if hi > lo {
      KeptNoneRemoved(hits, removed, lo, hi - 1);
      assert hits[lo..hi - 1] + [hits[hi - 1]] == hits[lo..hi];
    }
  }

  /**
   * Removing position `k` of the kept list, when every index removed so far is
   * above `k`, is the same as also removing original index `k`.
   */
  lemma RemoveBelowRemoved(hits: seq<Hit>, removed: set<int>, k: nat)
    requires k < |hits|
    requires forall d :: d in removed ==> d > k
    ensures var before := Kept(hits, removed, 0, |hits|);
      k < |before| && before[k] == hits[k]
      && before[..k] + before[k + 1..] == Kept(hits, removed + {k}, 0, |hits|)
  {
    var n := |hits|;
    var c := Kept(hits, removed, k + 1, n);
    KeptBefore(hits, removed, k);
    KeptAfter(hits, removed, k);
    KeptNoneRemoved(hits, removed, 0, k);
    assert hits[0..k] == hits[..k];
    DropAt(hits[..k], hits[k], c);
  }

  /** With nothing removed below `k` and `k` itself kept, the kept list is `hits[..k]`, `hits[k]`, then the rest. */
  lemma KeptBefore(hits: seq<Hit>, removed: set<int>, k: nat)
    requires k < |hits|
    requires forall d :: d in removed ==> d > k
    ensures Kept(hits, removed, 0, |hits|) == hits[..k] + [hits[k]] + Kept(hits, removed, k + 1, |hits|)
  {
    var n := |hits|;
    KeptConcat(hits, removed, 0, k, n);
    KeptConcat(hits, removed, k, k + 1, n);
    KeptNoneRemoved(hits, removed, 0, k);
    KeptSingle(hits, removed, k);
  }

  /** Also removing `k` leaves what was kept below `k` and what was kept above it. */
  lemma KeptAfter(hits: seq<Hit>, removed: set<int>, k: nat)
    requires k < |hits|
    ensures Kept(hits, removed + {k}, 0, |hits|) == Kept(hits, removed, 0, k) + Kept(hits, removed, k + 1, |hits|)
  {
    var n := |hits|;
    var r2 := removed + {k};
    KeptConcat(hits, r2, 0, k, n);
    KeptConcat(hits, r2, k, k + 1, n);
    KeptAddOutside(hits, removed, k, 0, k);
    KeptSingle(hits, r2, k);
    KeptAddOutside(hits, removed, k, k + 1, n);
    assert Kept(hits, r2, k, n) == Kept(hits, removed, k + 1, n);
  }

  lemma KeptSingle(hits: seq<Hit>, removed: set<int>, k: nat)
    requires k < |hits|
    ensures Kept(hits, removed, k, k + 1) == if k in removed then [] else [hits[k]]
  {
    assert Kept(hits, removed, k, k) == [];
  }

  /** Removing an index outside `lo..hi` does not change what is kept there. */
  lemma {:induction false} KeptAddOutside(hits: seq<Hit>, removed: set<int>, k: int, lo: nat, hi: nat)
    requires lo <= hi <= |hits|
    requires k < lo || hi <= k
    ensures Kept(hits, removed + {k}, lo, hi) == Kept(hits, removed, lo, hi)
    decreases hi
  {
    if hi > lo {
      KeptAddOutside(hits, removed, k, lo, hi - 1);
    }
  }

  lemma DropAt(a: seq<Hit>, x: Hit, c: seq<Hit>)
    ensures var l := a + [x] + c; |a| < |l| && l[|a|] == x && l[..|a|] + l[|a| + 1..] == a + c
  {
    var l := a + [x] + c;
    assert l[..|a|] == a;
    assert l[|a| + 1..] == c;
  }

  /** The indices of `sorted` deleted once the descending loop has passed position `i`. */
  function RemovedAbove(sorted: seq<int>, i: int): set<int>
  {
    set t | 0 <= t < |sorted| && i < t :: sorted[t]
  }

  lemma DeletionStart(hits: seq<Hit>, sorted: seq<int>)
    ensures Kept(hits, RemovedAbove(sorted, |sorted| - 1), 0, |hits|) == hits
  {
    assert RemovedAbove(sorted, |sorted| - 1) == {};
    KeptNoneRemoved(hits, {}, 0, |hits|);
  }

  /**
   * One step of the descending deletion loop at the first occurrence of a run of
   * equal indices: that original hit is removed.
   */
  lemma DeletionFirst(hits: seq<Hit>, sorted: seq<int>, i: nat)
    requires i < |sorted|
    requires Ascending(sorted)
    requires forall t :: 0 <= t < |sorted| ==> 0 <= sorted[t] < |hits|
    requires i == |sorted| - 1 || sorted[i] != sorted[i + 1]
    ensures var before := Kept(hits, RemovedAbove(sorted, i), 0, |hits|);
      sorted[i] < |before|
      && before[..sorted[i]] + before[sorted[i] + 1..] == Kept(hits, RemovedAbove(sorted, i - 1), 0, |hits|)
  {
    var removed := RemovedAbove(sorted, i);
    var k := sorted[i];
    forall d | d in removed ensures d > k {
      var t :| i < t < |sorted| && sorted[t] == d;
      assert sorted[i + 1] > k;
    }
    RemoveBelowRemoved(hits, removed, k);
    assert RemovedAbove(sorted, i - 1) == removed + {k};
  }

  /** A repeated index in the descending deletion loop removes nothing. */
  lemma DeletionRepeat(hits: seq<Hit>, sorted: seq<int>, i: nat)
    requires i + 1 < |sorted| && sorted[i] == sorted[i + 1]
    ensures RemovedAbove(sorted, i - 1) == RemovedAbove(sorted, i)
  {
  }

  lemma DeletionEnd(hits: seq<Hit>, sorted: seq<int>, marks: seq<int>)
    requires multiset(sorted) == multiset(marks)
    ensures RemovedAbove(sorted, -1) == set k | k in marks
  {
    forall v ensures v in RemovedAbove(sorted, -1) <==> v in marks {
      assert v in sorted <==> v in multiset(sorted);
      assert v in marks <==> v in multiset(marks);
    }
  }

  /** The hits left after pruning are the unpruned ones whose index was never marked. */
  lemma {:induction false} KeptMembers(hits: seq<Hit>, removed: set<int>, lo: nat, hi: nat, h: Hit)
    requires lo <= hi <= |hits|
    ensures h in Kept(hits, removed, lo, hi) <==> exists i :: lo <= i < hi && i !in removed && hits[i] == h
    decreases hi
  {
    if hi > lo {
      KeptMembers(hits, removed, lo, hi - 1, h);
    }
  }

  /** A hit survives pruning iff some unmarked position holds it; a hit that overrides nothing of a single hit list is kept. */
  lemma PrunedMembers(hits: seq<Hit>, h: Hit)
    ensures h in Pruned(hits) <==> exists i :: 0 <= i < |hits| && !Overridden(hits, i) && hits[i] == h
  {
    KeptMembers(hits, set k | k in Marks(hits), 0, |hits|, h);
    forall i | 0 <= i < |hits| ensures (i in set k | k in Marks(hits)) <==> Overridden(hits, i) {
      MarksExactly(hits, i);
    }
  }

  /**
   * A lone hit whose format has priority over its own ID would prune itself;
   * the `getNumHits() > 1` guard keeps it.
   */
  lemma SelfPriorityPrunesLoneHit(h: Hit)
    requires h.format.hasPriorityOver == [h.format.id]
    ensures Pruned([h]) == []
  {
    var id := h.format.id;
    assert [h][0] == h && [h][1..] == [] && [id][..0] == [];
    assert FirstWithFormat([h], id) == 0;
    assert MarksOfIds([h], [id]) == [0];
    assert MarksUpTo([h], 1) == MarksUpTo([h], 0) + MarksOfIds([h], [id]);
  }

  // ---------------------------------------------------------------------------
  // Extension checking

  /** No `.`, `/` or `\` after position `d`. */
  predicate LastSeparator(fileName: string, d: int)
  {
    forall k :: 0 <= k < |fileName| && d < k ==> fileName[k] != '.' && fileName[k] != '/' && fileName[k] != '\\'
  }

  /**
   * The extension of a file name: the text after the last `.`, when that `.` is
   * not the last character and no `/` or `\` follows it.
   */
  function ExtensionOf(fileName: string): (r: Option<string>)
    ensures r.Some? <==> exists d :: 0 <= d < |fileName| - 1 && fileName[d] == '.' && LastSeparator(fileName, d)
    ensures r.Some? ==>
      && 0 < |r.value| < |fileName|
      && fileName[|fileName| - |r.value| - 1] == '.'
      && r.value == fileName[|fileName| - |r.value|..]
      && '.' !in r.value && '/' !in r.value && '\\' !in r.value
  {
    var dotPos := LastIndexOf(fileName, '.');
    if dotPos < 0 then None
    else if dotPos == |fileName| - 1 then None
    else if LastIndexOf(fileName, '/') > dotPos then None
    else if LastIndexOf(fileName, '\\') > dotPos then None
    else Some(fileName[dotPos + 1..])
  }

  /** Every hit whose format does not expect the extension gets the extension warning. */
  function Annotated(hits: seq<Hit>, ext: string, extMatch: ExtensionMatch): (r: seq<Hit>)
    ensures |r| == |hits|
    ensures forall i :: 0 <= i < |hits| ==>
      r[i].(warning := hits[i].warning) == hits[i]
      && (r[i].warning == FILE_EXTENSION_WARNING <==>
            !extMatch(hits[i].format, ext) || hits[i].warning == FILE_EXTENSION_WARNING)
      && (r[i].warning != FILE_EXTENSION_WARNING ==> r[i].warning == hits[i].warning)
  {
    seq(|hits|, i requires 0 <= i < |hits| =>
      if extMatch(hits[i].format, ext) then hits[i] else hits[i].(warning := FILE_EXTENSION_WARNING))
  }

  /** Every hit gets the extension warning. */
  function AllWarned(hits: seq<Hit>): (r: seq<Hit>)
    ensures |r| == |hits|
    ensures forall h :: h in r ==> h.warning == FILE_EXTENSION_WARNING
    ensures forall i :: 0 <= i < |hits| ==> r[i].(warning := hits[i].warning) == hits[i]
  {
    seq(|hits|, i requires 0 <= i < |hits| => hits[i].(warning := FILE_EXTENSION_WARNING))
  }

  /** A format that can only be recognised by extension, and expects this one. */
  predicate TentativeCandidate(f: FileFormat, ext: string, extMatch: ExtensionMatch)
  {
    |f.internalSignatureIds| == 0 && extMatch(f, ext)
  }

  /** The tentative hits: one per format with no internal signature that expects the extension. */
  function TentativeHits(formats: seq<FileFormat>, ext: string, extMatch: ExtensionMatch): seq<Hit>
  {
    if |formats| == 0 then []
    else
      var f := formats[|formats| - 1];
      TentativeHits(formats[..|formats| - 1], ext, extMatch)
        + (if TentativeCandidate(f, ext, extMatch) then [Hit(f, Tentative, false, "")] else [])
  }

  /** A tentative hit is exactly a non-specific, warning-free hit for a candidate format. */
  lemma {:induction false} TentativeHitsMembers(formats: seq<FileFormat>, ext: string, extMatch: ExtensionMatch, h: Hit)
    ensures h in TentativeHits(formats, ext, extMatch) <==>
      h.hitType == Tentative && !h.specific && h.warning == ""
      && h.format in formats && TentativeCandidate(h.format, ext, extMatch)
  {
    if |formats| > 0 {
      var init := formats[..|formats| - 1];
      TentativeHitsMembers(init, ext, extMatch, h);
      assert formats == init + [formats[|formats| - 1]];
    }
  }

  /** The state of the file being identified: its hits and its classification. */
  datatype Identification = Identification(hits: seq<Hit>, classification: Classification)

  /** What `checkExtension` does to the hits and the classification of a file. */
  function ExtensionChecked(fileName: string, s: Identification, formats: seq<FileFormat>,
                            extMatch: ExtensionMatch): Identification
  {
    match ExtensionOf(fileName)
    case None => s.(hits := AllWarned(s.hits))
    case Some(ext) =>
      if |s.hits| > 0 then s.(hits := Annotated(s.hits, ext, extMatch))
      else
        var t := TentativeHits(formats, ext, extMatch);
        Identification(t, if |t| > 0 then TentativeIdent else s.classification)
  }

  /**
   * `checkExtension` never removes a hit, and adds hits (tentative ones) only
   * when there were none and the name has an extension.
   */
  lemma ExtensionCheckedCount(fileName: string, s: Identification, formats: seq<FileFormat>, extMatch: ExtensionMatch)
    ensures var r := ExtensionChecked(fileName, s, formats, extMatch);
      && (|s.hits| > 0 || ExtensionOf(fileName).None? ==> |r.hits| == |s.hits|)
      && (|r.hits| != |s.hits| ==>
            && |s.hits| == 0 && ExtensionOf(fileName).Some?
            && r.hits == TentativeHits(formats, ExtensionOf(fileName).value, extMatch))
  {
  }

  /** A hit gets the extension warning iff its format does not expect the extension, or there is none. */
  lemma ExtensionWarningIff(fileName: string, s: Identification, formats: seq<FileFormat>, extMatch: ExtensionMatch, i: nat)
    requires i < |s.hits|
    requires s.hits[i].warning != FILE_EXTENSION_WARNING
    ensures var r := ExtensionChecked(fileName, s, formats, extMatch);
      i < |r.hits| &&
      (r.hits[i].warning == FILE_EXTENSION_WARNING <==>
         ExtensionOf(fileName).None? || !extMatch(s.hits[i].format, ExtensionOf(fileName).value))
  {
  }

  // ---------------------------------------------------------------------------
  // runFileIdentification

  /** The whole of `runFileIdentification` on a file with the given name and state. */
  function Identified(fileName: string, s: Identification, formats: seq<FileFormat>,
                      sigs: seq<InternalSignature>, compliant: Compliance, extMatch: ExtensionMatch): Identification
  {
    var hits1 := s.hits + PositiveHits(sigs, compliant);
    var cls1 := if AnyCompliant(sigs, compliant) then PositiveIdent else s.classification;
    var hits2 := if |hits1| > 1 then Pruned(hits1) else hits1;
    var s3 := ExtensionChecked(fileName, Identification(hits2, cls1), formats, extMatch);
    if |s3.hits| == 0 then s3.(classification := NoIdent) else s3
  }

  /** The file ends unidentified exactly when no hit is left; otherwise a compliant signature made it positive or a tentative hit tentative. */
  lemma IdentifiedClassification(fileName: string, formats: seq<FileFormat>, sigs: seq<InternalSignature>,
                                 compliant: Compliance, extMatch: ExtensionMatch)
    ensures var r := Identified(fileName, Identification([], NotClassified), formats, sigs, compliant, extMatch);
      && (|r.hits| == 0 <==> r.classification == NoIdent)
      && (r.classification == PositiveIdent ==> AnyCompliant(sigs, compliant))
  {
    var hits1 := [] + PositiveHits(sigs, compliant);
    var cls1 := if AnyCompliant(sigs, compliant) then PositiveIdent else NotClassified;
    var hits2 := if |hits1| > 1 then Pruned(hits1) else hits1;
    var s3 := ExtensionChecked(fileName, Identification(hits2, cls1), formats, extMatch);
    assert s3.classification == cls1 || s3.classification == TentativeIdent;
  }

  /** A single compliant ZIP signature on `archive.zip` gives one positive hit without warning. */
  lemma ZipExample(zipFormat: FileFormat, sig: InternalSignature, compliant: Compliance, extMatch: ExtensionMatch)
    requires sig.fileFormats == [zipFormat] && compliant(sig)
    requires extMatch(zipFormat, "zip")
    ensures Identified("archive.zip", Identification([], NotClassified), [zipFormat], [sig], compliant, extMatch)
         == Identification([Hit(zipFormat, PositiveGenericOrSpecific, sig.specific, "")], PositiveIdent)
  {
    assert PositiveHits([sig], compliant) == [Hit(zipFormat, PositiveGenericOrSpecific, sig.specific, "")] by {
      assert [sig][..0] == [];
    }
    assert AnyCompliant([sig], compliant) by { assert [sig][0] == sig; }
    var name := "archive.zip";
    assert name[7] == '.' && LastSeparator(name, 7);
    var ext := ExtensionOf(name).value;
    assert forall k :: 0 <= k < |name| && k != 7 ==> name[k] != '.';
    assert |ext| == 3;
    assert ext == name[8..] == "zip";
  }

  /** With no matching signature, `report.pdf` gets one tentative hit for an extension-only PDF format. */
  lemma TentativeExample(pdf: FileFormat, sigs: seq<InternalSignature>, compliant: Compliance, extMatch: ExtensionMatch)
    requires pdf.internalSignatureIds == [] && extMatch(pdf, "pdf")
    requires forall i :: 0 <= i < |sigs| ==> !compliant(sigs[i])
    ensures Identified("report.pdf", Identification([], NotClassified), [pdf], sigs, compliant, extMatch)
         == Identification([Hit(pdf, Tentative, false, "")], TentativeIdent)
  {
    NoCompliantNoHits(sigs, compliant);
    var name := "report.pdf";
    assert name[6] == '.' && LastSeparator(name, 6);
    var ext := ExtensionOf(name).value;
    assert forall k :: 0 <= k < |name| && k != 6 ==> name[k] != '.';
    assert |ext| == 3;
    assert ext == name[7..] == "pdf";
    assert TentativeHits([pdf], "pdf", extMatch) == [Hit(pdf, Tentative, false, "")] by {
      assert [pdf][..0] == [];
    }
  }

  lemma AnyCompliantAppend(sigs: seq<InternalSignature>, sig: InternalSignature, compliant: Compliance)
    ensures AnyCompliant(sigs + [sig], compliant) <==> AnyCompliant(sigs, compliant) || compliant(sig)
  {
    if AnyCompliant(sigs, compliant) {
      var w :| 0 <= w < |sigs| && compliant(sigs[w]);
      assert (sigs + [sig])[w] == sigs[w];
    }
    if AnyCompliant(sigs + [sig], compliant) && !compliant(sig) {
      var w :| 0 <= w < |sigs| + 1 && compliant((sigs + [sig])[w]);
      assert w < |sigs| && (sigs + [sig])[w] == sigs[w];
    }
    assert (sigs + [sig])[|sigs|] == sig;
  }

  lemma {:induction false} NoCompliantNoHits(sigs: seq<InternalSignature>, compliant: Compliance)
    requires forall i :: 0 <= i < |sigs| ==> !compliant(sigs[i])
    ensures PositiveHits(sigs, compliant) == [] && !AnyCompliant(sigs, compliant)
  {
    if |sigs| > 0 {
      NoCompliantNoHits(sigs[..|sigs| - 1], compliant);
    }
  }

  // ---------------------------------------------------------------------------
  // Model preparation

  predicate IsBOF(b: ByteSequence) { StartsWith(b.reference, "BOF") }
  predicate IsEOF(b: ByteSequence) { StartsWith(b.reference, "EOF") }

  /** The byte sequences of `bs` whose reference starts with BOF, with EOF, and not with EOF, in order. */
  function BOFs(bs: seq<ByteSequence>): seq<ByteSequence>
  {
    if |bs| == 0 then [] else BOFs(bs[..|bs| - 1]) + (if IsBOF(bs[|bs| - 1]) then [bs[|bs| - 1]] else [])
  }

  function EOFs(bs: seq<ByteSequence>): seq<ByteSequence>
  {
    if |bs| == 0 then [] else EOFs(bs[..|bs| - 1]) + (if IsEOF(bs[|bs| - 1]) then [bs[|bs| - 1]] else [])
  }

  function NotEOFs(bs: seq<ByteSequence>): seq<ByteSequence>
  {
    if |bs| == 0 then [] else NotEOFs(bs[..|bs| - 1]) + (if !IsEOF(bs[|bs| - 1]) then [bs[|bs| - 1]] else [])
  }

  /**
   * `reorderByteSequences` as written: BOF sequences, then EOF sequences, then
   * every sequence that is not EOF — which includes the BOF ones again.
   */
  function Reordered(bs: seq<ByteSequence>): seq<ByteSequence>
  {
    BOFs(bs) + EOFs(bs) + NotEOFs(bs)
  }

  /** Each list holds exactly the sequences of `bs` that pass its reference test. */
  lemma {:induction false} ReorderMembers(bs: seq<ByteSequence>)
    ensures forall b :: b in BOFs(bs) <==> b in bs && IsBOF(b)
    ensures forall b :: b in EOFs(bs) <==> b in bs && IsEOF(b)
    ensures forall b :: b in NotEOFs(bs) <==> b in bs && !IsEOF(b)
  {
    if |bs| > 0 {
      var init := bs[..|bs| - 1];
      ReorderMembers(init);
      assert bs == init + [bs[|bs| - 1]];
    }
  }

  lemma PartitionCounts(bs: seq<ByteSequence>)
    ensures multiset(EOFs(bs)) + multiset(NotEOFs(bs)) == multiset(bs)
    ensures multiset(BOFs(bs)) <= multiset(bs)
  {
    EOFSplit(bs);
    BOFsIncluded(bs);
  }

  /** The EOF and non-EOF lists split the sequences between them. */
  lemma {:induction false} EOFSplit(bs: seq<ByteSequence>)
    ensures multiset(EOFs(bs)) + multiset(NotEOFs(bs)) == multiset(bs)
  {
    if |bs| > 0 {
      var init, x := bs[..|bs| - 1], bs[|bs| - 1];
      EOFSplit(init);
      assert bs == init + [x];
      calc {
        multiset(EOFs(bs)) + multiset(NotEOFs(bs));
        multiset(EOFs(init)) + multiset(if IsEOF(x) then [x] else [])
          + (multiset(NotEOFs(init)) + multiset(if IsEOF(x) then [] else [x]));
        multiset(init) + multiset([x]);
        multiset(bs);
      }
    }
  }

  /** The BOF list takes each sequence at most as often as it occurs. */
  lemma {:induction false} BOFsIncluded(bs: seq<ByteSequence>)
    ensures multiset(BOFs(bs)) <= multiset(bs)
  {
    if |bs| > 0 {
      var init, x := bs[..|bs| - 1], bs[|bs| - 1];
      BOFsIncluded(init);
      assert bs == init + [x];
      assert multiset(BOFs(bs)) == multiset(BOFs(init)) + multiset(if IsBOF(x) then [x] else []);
    }
  }

  /**
   * The reordered list holds every original sequence, and every BOF sequence a
   * second time: its length is the original length plus the number of BOF sequences.
   */
  lemma ReorderedDuplicatesBOF(bs: seq<ByteSequence>)
    ensures multiset(Reordered(bs)) == multiset(bs) + multiset(BOFs(bs))
    ensures |Reordered(bs)| == |bs| + |BOFs(bs)|
    ensures forall b :: b in Reordered(bs) <==> b in bs
  {
    PartitionCounts(bs);
    ReorderMembers(bs);
    assert |Reordered(bs)| == |multiset(Reordered(bs))|;
  }

  /** A signature of one BOF sequence ends up with that sequence twice. */
  lemma SingleBOFTwice(b: ByteSequence)
    requires IsBOF(b)
    ensures Reordered([b]) == [b, b]
  {
    assert [b][..0] == [] && [b][0] == b;
    assert !IsEOF(b) by { assert b.reference[0] == 'B'; assert "EOF"[0] == 'E'; }
    assert BOFs([b]) == [b] && EOFs([b]) == [] && NotEOFs([b]) == [b];
  }

  // The reordering the comment on `reorderByteSequences` describes: BOF
  // sequences, then EOF sequences, then the variable-position ones, each
  // sequence once (the second test read as `else if`).

  /** A reference cannot start with both BOF and EOF. */
  lemma BOFNotEOF(b: ByteSequence)
    requires IsBOF(b)
    ensures !IsEOF(b)
  {
    assert b.reference[0] == 'B';
    assert "EOF"[0] == 'E';
  }

  /** The byte sequences of `bs` that are neither BOF nor EOF, in order. */
  function Others(bs: seq<ByteSequence>): seq<ByteSequence>
  {
    if |bs| == 0 then []
    else Others(bs[..|bs| - 1]) + (if !IsBOF(bs[|bs| - 1]) && !IsEOF(bs[|bs| - 1]) then [bs[|bs| - 1]] else [])
  }

  function ReorderedIntended(bs: seq<ByteSequence>): seq<ByteSequence>
  {
    BOFs(bs) + EOFs(bs) + Others(bs)
  }

  lemma {:induction false} OthersMembers(bs: seq<ByteSequence>)
    ensures forall b :: b in Others(bs) <==> b in bs && !IsBOF(b) && !IsEOF(b)
  {
    if |bs| > 0 {
      var init := bs[..|bs| - 1];
      OthersMembers(init);
      assert bs == init + [bs[|bs| - 1]];
    }
  }

  /**
   * The three lists of `bs` are those of all but its last element, plus that
   * element in the one list its reference selects.
   */
  lemma FiltersLast(bs: seq<ByteSequence>) returns (bof: bool, eof: bool)
    requires |bs| > 0
    ensures !(bof && eof)
    ensures var init, x := bs[..|bs| - 1], bs[|bs| - 1];
      && BOFs(bs) == BOFs(init) + (if bof then [x] else [])
      && EOFs(bs) == EOFs(init) + (if eof then [x] else [])
      && Others(bs) == Others(init) + (if !bof && !eof then [x] else [])
  {
    bof, eof := IsBOF(bs[|bs| - 1]), IsEOF(bs[|bs| - 1]);
    if bof {
      BOFNotEOF(bs[|bs| - 1]);
    }
  }

  /** One element more keeps a three-way split, when it joins exactly one of the three lists. */
  lemma SplitStep(x: ByteSequence, bofs: seq<ByteSequence>, eofs: seq<ByteSequence>, others: seq<ByteSequence>,
                  init: seq<ByteSequence>, bof: bool, eof: bool)
    requires !(bof && eof)
    requires multiset(bofs) + multiset(eofs) + multiset(others) == multiset(init)
    ensures multiset(bofs + (if bof then [x] else [])) + multiset(eofs + (if eof then [x] else []))
            + multiset(others + (if !bof && !eof then [x] else [])) == multiset(init) + multiset{x}
  {
  }

  /** A sequence's multiset is that of all but its last element, plus the last. */
  lemma MultisetOfLast<T>(s: seq<T>)
    requires |s| > 0
    ensures multiset(s) == multiset(s[..|s| - 1]) + multiset{s[|s| - 1]}
  {
    assert s == s[..|s| - 1] + [s[|s| - 1]];
  }

  /** The three-way split of all but the last element extends to the whole sequence. */
  lemma ThreeWayStep(bs: seq<ByteSequence>)
    requires |bs| > 0
    requires multiset(BOFs(bs[..|bs| - 1])) + multiset(EOFs(bs[..|bs| - 1])) + multiset(Others(bs[..|bs| - 1]))
             == multiset(bs[..|bs| - 1])
    ensures multiset(BOFs(bs)) + multiset(EOFs(bs)) + multiset(Others(bs)) == multiset(bs)
  {
    var init, x := bs[..|bs| - 1], bs[|bs| - 1];
    var bof, eof := FiltersLast(bs);
    SplitStep(x, BOFs(init), EOFs(init), Others(init), init, bof, eof);
    MultisetOfLast(bs);
  }

  /** The BOF, EOF and other lists split the sequences between them. */
  lemma {:induction false} ThreeWaySplit(bs: seq<ByteSequence>)
    ensures multiset(BOFs(bs)) + multiset(EOFs(bs)) + multiset(Others(bs)) == multiset(bs)
  {
    if |bs| > 0 {
      ThreeWaySplit(bs[..|bs| - 1]);
      ThreeWayStep(bs);
    }
  }

  /** The intended reordering is a permutation of the byte sequences. */
  lemma ReorderedIntendedPermutes(bs: seq<ByteSequence>)
    ensures multiset(ReorderedIntended(bs)) == multiset(bs)
    ensures |ReorderedIntended(bs)| == |bs|
  {
    ThreeWaySplit(bs);
    assert |ReorderedIntended(bs)| == |multiset(ReorderedIntended(bs))|;
  }

  /** The intended reordering puts the BOF sequences first, the EOF ones next and the rest last. */
  lemma ReorderedIntendedOrdered(bs: seq<ByteSequence>)
    ensures var r, nb, ne := ReorderedIntended(bs), |BOFs(bs)|, |EOFs(bs)|;
      && (forall i :: 0 <= i < nb ==> IsBOF(r[i]))
      && (forall i :: nb <= i < nb + ne ==> IsEOF(r[i]))
      && (forall i :: nb + ne <= i < |r| ==> !IsBOF(r[i]) && !IsEOF(r[i]))
  {
    ReorderMembers(bs);
    OthersMembers(bs);
    var r, nb, ne := ReorderedIntended(bs), |BOFs(bs)|, |EOFs(bs)|;
    forall i | 0 <= i < nb ensures IsBOF(r[i]) {
      assert r[i] == BOFs(bs)[i];
    }
    forall i | nb <= i < nb + ne ensures IsEOF(r[i]) {
      assert r[i] == EOFs(bs)[i - nb];
    }
    forall i | nb + ne <= i < |r| ensures !IsBOF(r[i]) && !IsEOF(r[i]) {
      assert r[i] == Others(bs)[i - nb - ne];
    }
  }

  /** Where the written and the intended reorderings differ: a lone BOF sequence stays single. */
  lemma SingleBOFOnceIntended(b: ByteSequence)
    requires IsBOF(b)
    ensures ReorderedIntended([b]) == [b]
    ensures Reordered([b]) != ReorderedIntended([b])
  {
    SingleBOFTwice(b);
    BOFNotEOF(b);
    assert [b][..0] == [] && [b][0] == b;
    assert BOFs([b]) == [b] && EOFs([b]) == [] && Others([b]) == [];
  }

  /** The index of the first signature with the given ID, or -1. */
  function FirstSigWithId(sigs: seq<InternalSignature>, id: int): (r: int)
    ensures -1 <= r < |sigs|
    ensures r >= 0 ==> sigs[r].id == id
    ensures forall k :: 0 <= k < |sigs| && (r < 0 || k < r) ==> sigs[k].id != id
  {
    if |sigs| == 0 then -1
    else if sigs[0].id == id then 0
    else var t := FirstSigWithId(sigs[1..], id); if t < 0 then -1 else t + 1
  }

  /** `addFileFormat(format)` on the first signature with the given ID, if any. */
  function LinkOne(sigs: seq<InternalSignature>, f: FileFormat, sigId: int): (r: seq<InternalSignature>)
    ensures |r| == |sigs|
  {
    var k := FirstSigWithId(sigs, sigId);
    if k < 0 then sigs else sigs[k := sigs[k].(fileFormats := sigs[k].fileFormats + [f])]
  }

  /** The inner loops for one format, over its internal signature IDs. */
  function LinkFormat(sigs: seq<InternalSignature>, f: FileFormat, n: nat): (r: seq<InternalSignature>)
    requires n <= |f.internalSignatureIds|
    ensures |r| == |sigs|
  {
    if n == 0 then sigs else LinkOne(LinkFormat(sigs, f, n - 1), f, f.internalSignatureIds[n - 1])
  }

  /** `setAllSignatureFileFormats` over the given formats. */
  function LinkAll(sigs: seq<InternalSignature>, formats: seq<FileFormat>): (r: seq<InternalSignature>)
    ensures |r| == |sigs|
  {
    if |formats| == 0 then sigs
    else var f := formats[|formats| - 1];
      LinkFormat(LinkAll(sigs, formats[..|formats| - 1]), f, |f.internalSignatureIds|)
  }

  /** Linking changes only the file-format lists, so signature IDs stay put. */
  predicate SameButFormats(a: seq<InternalSignature>, b: seq<InternalSignature>)
  {
    |a| == |b| && forall i :: 0 <= i < |a| ==>
      a[i].id == b[i].id && a[i].specific == b[i].specific && a[i].byteSequences == b[i].byteSequences
  }

  /** The formats signature `s` should get from the first `n` IDs of format `f`. */
  function WantedFrom(f: FileFormat, n: nat, sigs: seq<InternalSignature>, s: int): seq<FileFormat>
    requires n <= |f.internalSignatureIds|
  {
    if n == 0 then []
    else WantedFrom(f, n - 1, sigs, s) + (if FirstSigWithId(sigs, f.internalSignatureIds[n - 1]) == s then [f] else [])
  }

  /**
   * The reference definition of the links: signature `s` gets every format, in
   * format order, once for each of its signature IDs that names `s` first.
   */
  function Wanted(formats: seq<FileFormat>, sigs: seq<InternalSignature>, s: int): seq<FileFormat>
  {
    if |formats| == 0 then []
    else var f := formats[|formats| - 1];
      Wanted(formats[..|formats| - 1], sigs, s) + WantedFrom(f, |f.internalSignatureIds|, sigs, s)
  }

  lemma {:induction false} SameButFormatsFirst(a: seq<InternalSignature>, b: seq<InternalSignature>, id: int)
    requires SameButFormats(a, b)
    ensures FirstSigWithId(a, id) == FirstSigWithId(b, id)
  {
    if |a| > 0 && a[0].id != id {
      assert SameButFormats(a[1..], b[1..]) by {
        forall i | 0 <= i < |a| - 1 ensures a[1..][i].id == b[1..][i].id {
          assert a[1..][i] == a[i + 1] && b[1..][i] == b[i + 1];
        }
      }
      SameButFormatsFirst(a[1..], b[1..], id);
    }
  }

  /** One `addFileFormat`: only the first signature with the ID gets `f`, at its end. */
  lemma LinkOneSpec(prev: seq<InternalSignature>, base: seq<InternalSignature>, f: FileFormat, id: int)
    requires SameButFormats(prev, base)
    ensures SameButFormats(LinkOne(prev, f, id), base)
    ensures forall s :: 0 <= s < |prev| ==>
      LinkOne(prev, f, id)[s].fileFormats == prev[s].fileFormats + (if FirstSigWithId(base, id) == s then [f] else [])
  {
    SameButFormatsFirst(prev, base, id);
  }

  lemma {:induction false} LinkFormatSpec(sigs: seq<InternalSignature>, base: seq<InternalSignature>, f: FileFormat, n: nat)
    requires n <= |f.internalSignatureIds|
    requires SameButFormats(sigs, base)
    ensures SameButFormats(LinkFormat(sigs, f, n), base)
    ensures forall s :: 0 <= s < |sigs| ==>
      LinkFormat(sigs, f, n)[s].fileFormats == sigs[s].fileFormats + WantedFrom(f, n, base, s)
  {
    if n > 0 {
      LinkFormatSpec(sigs, base, f, n - 1);
      var prev := LinkFormat(sigs, f, n - 1);
      var id := f.internalSignatureIds[n - 1];
      assert LinkFormat(sigs, f, n) == LinkOne(prev, f, id);
      LinkOneSpec(prev, base, f, id);
      forall s | 0 <= s < |sigs|
        ensures LinkFormat(sigs, f, n)[s].fileFormats == sigs[s].fileFormats + WantedFrom(f, n, base, s)
      {
        var extra := if FirstSigWithId(base, id) == s then [f] else [];
        assert WantedFrom(f, n, base, s) == WantedFrom(f, n - 1, base, s) + extra;
        assert sigs[s].fileFormats + WantedFrom(f, n - 1, base, s) + extra
            == sigs[s].fileFormats + WantedFrom(f, n, base, s);
      }
    }
  }

  /**
   * After `setAllSignatureFileFormats` every signature holds its old formats
   * followed by exactly the formats that name it, in format order; nothing else
   * of a signature changes.
   */
  lemma {:induction false} LinkAllBackLinks(sigs: seq<InternalSignature>, formats: seq<FileFormat>)
    ensures SameButFormats(LinkAll(sigs, formats), sigs)
    ensures forall s :: 0 <= s < |sigs| ==>
      LinkAll(sigs, formats)[s].fileFormats == sigs[s].fileFormats + Wanted(formats, sigs, s)
  {
    if |formats| > 0 {
      var init, f := formats[..|formats| - 1], formats[|formats| - 1];
      LinkAllBackLinks(sigs, init);
      var prev := LinkAll(sigs, init);
      LinkFormatSpec(prev, sigs, f, |f.internalSignatureIds|);
      forall s | 0 <= s < |sigs|
        ensures LinkAll(sigs, formats)[s].fileFormats == sigs[s].fileFormats + Wanted(formats, sigs, s)
      {
        assert sigs[s].fileFormats + Wanted(init, sigs, s) + WantedFrom(f, |f.internalSignatureIds|, sigs, s)
            == sigs[s].fileFormats + Wanted(formats, sigs, s);
      }
    }
  }

  /** Each signature with its byte sequences reordered. */
  function ReorderAll(sigs: seq<InternalSignature>): (r: seq<InternalSignature>)
    ensures |r| == |sigs|
    ensures forall i :: 0 <= i < |sigs| ==> r[i].(byteSequences := sigs[i].byteSequences) == sigs[i]
  {
    seq(|sigs|, i requires 0 <= i < |sigs| => sigs[i].(byteSequences := Reordered(sigs[i].byteSequences)))
  }

  // ---------------------------------------------------------------------------
  // The objects

  /** The ByteReader of the file being identified, as far as FFSignatureFile uses it. */
  class ByteReader {
    const fileName: string
    var hits: seq<Hit>
    var classification: Classification

    constructor (fileName: string)
      ensures this.fileName == fileName && hits == [] && classification == NotClassified
    {
      this.fileName := fileName;
      hits := [];
      classification := NotClassified;
    }

    function State(): Identification
      reads this
    {
      Identification(hits, classification)
    }

    /** `removeHit(index)`: the hit list without that position. */
    method RemoveHit(index: int)
      requires 0 <= index < |hits|
      modifies this
      ensures hits == old(hits)[..index] + old(hits)[index + 1..]
      ensures classification == old(classification)
    {
      hits := hits[..index] + hits[index + 1..];
    }
  }

  /** `hitsToRemove`: the triple loop of `removeLowerPriorityHits`, with its `break`. */
  method CollectHitsToRemove(hits: seq<Hit>) returns (hitsToRemove: seq<int>)
    ensures hitsToRemove == Marks(hits)
    ensures forall k :: k in hitsToRemove <==> Overridden(hits, k) && k >= 0
  {
    hitsToRemove := [];
    for i := 0 to |hits|
      invariant hitsToRemove == MarksUpTo(hits, i)
    {
      var prio := hits[i].format.hasPriorityOver;
      for j := 0 to |prio|
        invariant hitsToRemove == MarksUpTo(hits, i) + MarksOfIds(hits, prio[..j])
      {
        var formatID := prio[j];
        assert prio[..j + 1][..j] == prio[..j];
        var k := 0;
        while k < |hits|
          invariant 0 <= k <= |hits|
          invariant forall t :: 0 <= t < k ==> hits[t].format.id != formatID
        {
          if hits[k].format.id == formatID {
            break;
          }
          k := k + 1;
        }
        if k < |hits| {
          hitsToRemove := hitsToRemove + [k];
        }
      }
      assert prio[..|prio|] == prio;
    }
    forall k ensures k in hitsToRemove <==> Overridden(hits, k) && k >= 0 {
      MarksExactly(hits, k);
    }
  }

  /** One pass of the insertion sort: `x` is shifted into the ascending prefix `a[..n]`. */
  method InsertInto(a: array<int>, n: nat, x: int)
    requires n < a.Length
    modifies a
    ensures a[..n + 1] == Insert(old(a[..n]), x)
    ensures a[n + 1..] == old(a[n + 1..])
  {
    ghost var prev := a[..n];
    ghost var rest := a[n + 1..];
    var j := n;
    while j > 0 && a[j - 1] > x
      invariant 0 <= j <= n
      invariant a[..j] == prev[..j]
      invariant a[j + 1..n + 1] == prev[j..]
      invariant a[n + 1..] == rest
      invariant forall t :: j <= t < n ==> prev[t] > x
    {
      ShiftStep(a, prev, rest, n, j);
      j := j - 1;
    }
    a[j] := x;
    InsertAt(prev, x, j);
    assert a[..n + 1] == a[..j] + [x] + a[j + 1..n + 1];
  }

  /** One shift of the insertion loop, `a[j] := a[j - 1]`, keeps the loop's picture of `a`. */
  method ShiftStep(a: array<int>, ghost prev: seq<int>, ghost rest: seq<int>, n: nat, j: nat)
    requires 0 < j <= n < a.Length && |prev| == n
    requires a[..j] == prev[..j] && a[j + 1..n + 1] == prev[j..] && a[n + 1..] == rest
    modifies a
    ensures a[..j - 1] == prev[..j - 1] && a[j..n + 1] == prev[j - 1..] && a[n + 1..] == rest
  {
    assert a[j - 1] == prev[j - 1];
    a[j] := a[j - 1];
    assert a[..j - 1] == old(a[..j])[..j - 1];
    assert a[j + 1..n + 1] == old(a[j + 1..n + 1]);
    assert a[j..n + 1] == [prev[j - 1]] + a[j + 1..n + 1];
    assert a[n + 1..] == old(a[n + 1..]);
  }

  /** A rearrangement of the marks holds valid hit indices only. */
  lemma MarksInRange(hits: seq<Hit>, sorted: seq<int>)
    requires multiset(sorted) == multiset(Marks(hits))
    ensures forall t :: 0 <= t < |sorted| ==> 0 <= sorted[t] < |hits|
  {
    forall t | 0 <= t < |sorted| ensures 0 <= sorted[t] < |hits| {
      assert sorted[t] in multiset(Marks(hits));
      MarksExactly(hits, sorted[t]);
    }
  }

  /** `indexesOfHits`: the marks insertion-sorted into a new array. */
  method SortIndexes(hitsToRemove: seq<int>) returns (indexesOfHits: array<int>)
    ensures indexesOfHits.Length == |hitsToRemove|
    ensures indexesOfHits[..] == InsertionSorted(hitsToRemove)
    ensures Ascending(indexesOfHits[..]) && multiset(indexesOfHits[..]) == multiset(hitsToRemove)
  {
    indexesOfHits := new int[|hitsToRemove|];
    var numHitsToRemove := 0;
    for i := 0 to |hitsToRemove|
      invariant numHitsToRemove == i
      invariant indexesOfHits[..i] == InsertionSorted(hitsToRemove[..i])
    {
      InsertInto(indexesOfHits, numHitsToRemove, hitsToRemove[i]);
      numHitsToRemove := numHitsToRemove + 1;
      assert hitsToRemove[..i + 1][..i] == hitsToRemove[..i];
    }
    assert hitsToRemove[..|hitsToRemove|] == hitsToRemove;
    assert indexesOfHits[..] == indexesOfHits[..|hitsToRemove|];
    InsertionSortedSorts(hitsToRemove);
  }

  /** The inner loop of `runFileIdentification`: one positive hit per format of a compliant signature. */
  method AddSignatureHits(targetFile: ByteReader, internalSig: InternalSignature)
    modifies targetFile
    ensures targetFile.hits == old(targetFile.hits) + SignatureHits(internalSig)
    ensures targetFile.classification == old(targetFile.classification)
  {
    ghost var h0 := targetFile.hits;
    ghost var all := SignatureHits(internalSig);
    for i := 0 to |internalSig.fileFormats|
      invariant targetFile.hits == h0 + all[..i]
      invariant targetFile.classification == old(targetFile.classification)
    {
      assert all[..i + 1] == all[..i] + [all[i]];
      targetFile.hits := targetFile.hits + [Hit(internalSig.fileFormats[i], PositiveGenericOrSpecific, internalSig.specific, "")];
    }
    assert all[..|internalSig.fileFormats|] == all;
  }

  /** The outer loop of `runFileIdentification`: every compliant signature adds its hits and makes the file positive. */
  method MatchSignatures(targetFile: ByteReader, signatureList: seq<InternalSignature>, compliant: Compliance)
    modifies targetFile
    ensures targetFile.hits == old(targetFile.hits) + PositiveHits(signatureList, compliant)
    ensures targetFile.classification ==
      if AnyCompliant(signatureList, compliant) then PositiveIdent else old(targetFile.classification)
  {
    for iSig := 0 to |signatureList|
      invariant targetFile.hits == old(targetFile.hits) + PositiveHits(signatureList[..iSig], compliant)
      invariant targetFile.classification ==
        if AnyCompliant(signatureList[..iSig], compliant) then PositiveIdent else old(targetFile.classification)
    {
      var internalSig := signatureList[iSig];
      ghost var done := signatureList[..iSig];
      assert signatureList[..iSig + 1] == done + [internalSig];
      assert (done + [internalSig])[..iSig] == done;
      if compliant(internalSig) {
        targetFile.classification := PositiveIdent;
        AddSignatureHits(targetFile, internalSig);
      }
      AnyCompliantAppend(done, internalSig, compliant);
    }
    assert signatureList[..|signatureList|] == signatureList;
  }

  /** The deletion loop of `removeLowerPriorityHits`: every index of the sorted array goes, once. */
  method DeleteSorted(targetFile: ByteReader, indexesOfHits: array<int>)
    requires Ascending(indexesOfHits[..])
    requires forall t :: 0 <= t < indexesOfHits.Length ==> 0 <= indexesOfHits[t] < |targetFile.hits|
    modifies targetFile
    ensures targetFile.hits == Kept(old(targetFile.hits), RemovedAbove(indexesOfHits[..], -1), 0, |old(targetFile.hits)|)
    ensures targetFile.classification == old(targetFile.classification)
  {
    ghost var orig := targetFile.hits;
    ghost var sorted := indexesOfHits[..];
    var n := indexesOfHits.Length;
    var i := n - 1;
    DeletionStart(orig, sorted);
    while i >= 0
      invariant -1 <= i < n
      invariant targetFile.hits == Kept(orig, RemovedAbove(sorted, i), 0, |orig|)
      invariant targetFile.classification == old(targetFile.classification)
    {
      var k := indexesOfHits[i];
      if i == n - 1 || indexesOfHits[i] != indexesOfHits[i + 1] {
        DeletionFirst(orig, sorted, i);
        targetFile.RemoveHit(k);
      } else {
        DeletionRepeat(orig, sorted, i);
      }
      i := i - 1;
    }
  }

  class FFSignatureFile {
    var formats: seq<FileFormat>
    var signatures: seq<InternalSignature>

    constructor (formats: seq<FileFormat>, signatures: seq<InternalSignature>)
      ensures this.formats == formats && this.signatures == signatures
    {
      this.formats := formats;
      this.signatures := signatures;
    }

    /** `removeLowerPriorityHits`: delete the sorted marks in decreasing order, skipping repeats. */
    method RemoveLowerPriorityHits(targetFile: ByteReader)
      modifies targetFile
      ensures targetFile.hits == Pruned(old(targetFile.hits))
      ensures targetFile.classification == old(targetFile.classification)
    {
      ghost var orig := targetFile.hits;
      var hitsToRemove := CollectHitsToRemove(targetFile.hits);
      var indexesOfHits := SortIndexes(hitsToRemove);
      ghost var sorted := indexesOfHits[..];
      MarksInRange(orig, sorted);
      DeleteSorted(targetFile, indexesOfHits);
      DeletionEnd(orig, sorted, hitsToRemove);
    }

    /** `checkExtension`. */
    method CheckExtension(targetFile: ByteReader, extMatch: ExtensionMatch)
      modifies targetFile
      ensures targetFile.State() == ExtensionChecked(targetFile.fileName, old(targetFile.State()), formats, extMatch)
    {
      var fileName := targetFile.fileName;
      var hasExtension := true;
      var dotPos := LastIndexOf(fileName, '.');
      if dotPos < 0 {
        hasExtension := false;
      } else if dotPos == |fileName| - 1 {
        hasExtension := false;
      } else if LastIndexOf(fileName, '/') > dotPos {
        hasExtension := false;
      } else if LastIndexOf(fileName, '\\') > dotPos {
        hasExtension := false;
      }
      ghost var before := targetFile.hits;
      if hasExtension {
        var fileExtension := fileName[dotPos + 1..];
        if |targetFile.hits| > 0 {
          for iHit := 0 to |targetFile.hits|
            invariant |targetFile.hits| == |before|
            invariant targetFile.classification == old(targetFile.classification)
            invariant forall t :: 0 <= t < iHit ==> targetFile.hits[t] == Annotated(before, fileExtension, extMatch)[t]
            invariant forall t :: iHit <= t < |before| ==> targetFile.hits[t] == before[t]
          {
            if !extMatch(targetFile.hits[iHit].format, fileExtension) {
              targetFile.hits := targetFile.hits[iHit := targetFile.hits[iHit].(warning := FILE_EXTENSION_WARNING)];
            }
          }
          assert targetFile.hits == Annotated(before, fileExtension, extMatch);
        } else {
          for iFormat := 0 to |formats|
            invariant targetFile.hits == TentativeHits(formats[..iFormat], fileExtension, extMatch)
            invariant targetFile.classification ==
              if |targetFile.hits| > 0 then TentativeIdent else old(targetFile.classification)
          {
            assert formats[..iFormat + 1][..iFormat] == formats[..iFormat];
            var f := formats[iFormat];
            if |f.internalSignatureIds| == 0 {
              if extMatch(f, fileExtension) {
                targetFile.hits := targetFile.hits + [Hit(f, Tentative, false, "")];
                targetFile.classification := TentativeIdent;
              }
            }
          }
          assert formats[..|formats|] == formats;
        }
      } else {
        for iHit := 0 to |targetFile.hits|
          invariant |targetFile.hits| == |before|
          invariant targetFile.classification == old(targetFile.classification)
          invariant forall t :: 0 <= t < iHit ==> targetFile.hits[t] == before[t].(warning := FILE_EXTENSION_WARNING)
          invariant forall t :: iHit <= t < |before| ==> targetFile.hits[t] == before[t]
        {
          targetFile.hits := targetFile.hits[iHit := targetFile.hits[iHit].(warning := FILE_EXTENSION_WARNING)];
        }
        assert targetFile.hits == AllWarned(before);
      }
    }

    /** `runFileIdentification`. */
    method RunFileIdentification(targetFile: ByteReader, compliant: Compliance, extMatch: ExtensionMatch)
      modifies targetFile
      ensures targetFile.State()
           == Identified(targetFile.fileName, old(targetFile.State()), formats, signatures, compliant, extMatch)
    {
      MatchSignatures(targetFile, signatures, compliant);
      if |targetFile.hits| > 1 {
        RemoveLowerPriorityHits(targetFile);
      }
      CheckExtension(targetFile, extMatch);
      if |targetFile.hits| == 0 {
        targetFile.classification := NoIdent;
      }
    }

    /** `reorderByteSequences`: BOF, then EOF, then non-EOF sequences, per signature. */
    method ReorderByteSequences()
      modifies this
      ensures formats == old(formats)
      ensures signatures == ReorderAll(old(signatures))
    {
      ghost var orig := signatures;
      for iSig := 0 to |signatures|
        invariant formats == old(formats) && |signatures| == |orig|
        invariant forall t :: 0 <= t < iSig ==> signatures[t] == ReorderAll(orig)[t]
        invariant forall t :: iSig <= t < |orig| ==> signatures[t] == orig[t]
      {
        var sig := signatures[iSig];
        var bofs: seq<ByteSequence> := [];
        var eofs: seq<ByteSequence> := [];
        var variable: seq<ByteSequence> := [];
        for iBS := 0 to |sig.byteSequences|
          invariant bofs == BOFs(sig.byteSequences[..iBS])
          invariant eofs == EOFs(sig.byteSequences[..iBS])
          invariant variable == NotEOFs(sig.byteSequences[..iBS])
        {
          var bseq := sig.byteSequences[iBS];
          assert sig.byteSequences[..iBS + 1][..iBS] == sig.byteSequences[..iBS];
          if StartsWith(bseq.reference, "BOF") {
            bofs := bofs + [bseq];
          }
          if StartsWith(bseq.reference, "EOF") {
            eofs := eofs + [bseq];
          } else {
            variable := variable + [bseq];
          }
        }
        assert sig.byteSequences[..|sig.byteSequences|] == sig.byteSequences;
        var byteSequences := bofs + eofs + variable;
        signatures := signatures[iSig := sig.(byteSequences := byteSequences)];
      }
    }

    /** `setAllSignatureFileFormats`: every format is appended to the first signature with each of its IDs. */
    method SetAllSignatureFileFormats()
      modifies this
      ensures formats == old(formats)
      ensures signatures == LinkAll(old(signatures), formats)
    {
      ghost var orig := signatures;
      for iFormat := 0 to |formats|
        invariant formats == old(formats)
        invariant signatures == LinkAll(orig, formats[..iFormat])
      {
        var f := formats[iFormat];
        assert formats[..iFormat + 1][..iFormat] == formats[..iFormat];
        ghost var start := signatures;
        for iFileSig := 0 to |f.internalSignatureIds|
          invariant formats == old(formats)
          invariant signatures == LinkFormat(start, f, iFileSig)
        {
          var iFileSigID := f.internalSignatureIds[iFileSig];
          var iIntSig := 0;
          while iIntSig < |signatures|
            invariant 0 <= iIntSig <= |signatures|
            invariant forall t :: 0 <= t < iIntSig ==> signatures[t].id != iFileSigID
          {
            if signatures[iIntSig].id == iFileSigID {
              break;
            }
            iIntSig := iIntSig + 1;
          }
          if iIntSig < |signatures| {
            var sig := signatures[iIntSig];
            signatures := signatures[iIntSig := sig.(fileFormats := sig.fileFormats + [f])];
          }
        }
      }
      assert formats[..|formats|] == formats;
    }

    /**
     * `prepareForUse`: link signatures to their formats, then reorder their byte
     * sequences. `reorderAllSequenceFragments` only calls `prepareSeqFragments`
     * on sub-sequences, which this model does not hold.
     */
    method PrepareForUse()
      modifies this
      ensures formats == old(formats)
      ensures signatures == ReorderAll(LinkAll(old(signatures), formats))
    {
      SetAllSignatureFileFormats();
      ReorderByteSequences();
    }
  }
}
