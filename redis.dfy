/**
 * The store adapter of src/lib/redis.ts over an abstract Redis store.
 *
 * The store holds four kinds of key, each a field of class Store:
 *   form:{id}                       -> forms[id]
 *   submission:{formId}:{subId}     -> submissions[SubmissionKey(formId, subId)]
 *   form_ids (a set)                -> formIds
 *   submission_ids:{formId} (zset)  -> indexes[formId], member subId, score submittedAt
 * Keys are structured rather than concatenated strings; submission ids are
 * UUIDs, which contain no ':', so the concatenated keys never collide.
 */
module Redis {
  import opened Wrappers
  import opened Types
  import SortedSet
  import Lists

  datatype SubmissionKey = SubmissionKey(formId: string, subId: string)

  /** The records stored under the ids in `ids`, in the order of `ids`, missing ones dropped (the filter of getAllForms). */
  function PresentForms(ids: seq<string>, forms: map<string, Form>): (r: seq<Form>)
    ensures forall f | f in r :: f in forms.Values
    ensures |r| <= |ids|
    ensures forall id | id in ids && id in forms :: forms[id] in r
    ensures (forall id | id in forms :: forms[id].id == id) ==>
              forall f | f in r :: f.id in forms && forms[f.id] == f
    ensures (forall id | id in forms :: forms[id].id == id) ==>
              forall f | f in r :: f.id in ids
    ensures (forall id | id in forms :: forms[id].id == id) && (forall i, j | 0 <= i < j < |ids| :: ids[i] != ids[j]) ==>
              forall i, j | 0 <= i < j < |r| :: r[i].id != r[j].id
  {
    if ids == [] then []
    else
      var rest := PresentForms(ids[1..], forms);
      if ids[0] in forms then [forms[ids[0]]] + rest else rest
  }

  predicate DistinctIds(s: seq<Form>) {
    forall i, j | 0 <= i < j < |s| :: s[i].id != s[j].id
  }

  lemma DistinctIdsCons(x: Form, s: seq<Form>)
    ensures DistinctIds([x] + s) <==> DistinctIds(s) && forall g | g in s :: g.id != x.id
  {
    var t := [x] + s;
    if DistinctIds(s) && forall g | g in s :: g.id != x.id {
      forall i, j | 0 <= i < j < |t| ensures t[i].id != t[j].id {
        if i > 0 {
          assert t[i] == s[i - 1] && t[j] == s[j - 1];
        } else {
          assert t[j] in s;
        }
      }
    }
    if DistinctIds(t) {
      forall i, j | 0 <= i < j < |s| ensures s[i].id != s[j].id {
        assert t[i + 1] == s[i] && t[j + 1] == s[j];
      }
      forall g | g in s ensures g.id != x.id {
        var k :| 0 <= k < |s| && s[k] == g;
        assert t[0] == x && t[k + 1] == g;
      }
    }
  }

  predicate NewestFirst(s: seq<Form>) {
    forall i, j | 0 <= i < j < |s| :: s[i].createdAt >= s[j].createdAt
  }

  /** Inserts a form before the first one created no later than it. */
  function InsertByNewest(f: Form, sorted: seq<Form>): (r: seq<Form>)
    requires NewestFirst(sorted)
    ensures NewestFirst(r)
    ensures forall g :: g in r <==> g == f || g in sorted
    ensures multiset(r) == multiset(sorted) + multiset{f}
    ensures |r| == |sorted| + 1
  {
    if sorted == [] || f.createdAt >= sorted[0].createdAt then
      InsertHere(f, sorted);
      [f] + sorted
    else
      var hd, tl := sorted[0], sorted[1..];
      Lists.HeadTail(sorted, []);
      assert forall g | g in tl :: hd.createdAt >= g.createdAt;
      var rest := InsertByNewest(f, tl);
      InsertLater(f, hd, tl, rest);
      [hd] + rest
  }

  /** A form no older than the head goes first. */
  lemma InsertHere(f: Form, sorted: seq<Form>)
    requires NewestFirst(sorted)
    requires sorted == [] || f.createdAt >= sorted[0].createdAt
    ensures NewestFirst([f] + sorted)
  {
    var r := [f] + sorted;
    forall i, j | 0 <= i < j < |r| ensures r[i].createdAt >= r[j].createdAt {
      if i > 0 {
        assert r[i] == sorted[i - 1] && r[j] == sorted[j - 1];
      } else {
        assert r[j] == sorted[j - 1];
      }
    }
  }

  /** An older form goes into the tail: the head stays first and the tail's insertion follows it. */
  lemma InsertLater(f: Form, hd: Form, tl: seq<Form>, rest: seq<Form>)
    requires f.createdAt < hd.createdAt
    requires forall g | g in tl :: hd.createdAt >= g.createdAt
    requires NewestFirst(rest) && (forall g :: g in rest <==> g == f || g in tl)
    requires multiset(rest) == multiset(tl) + multiset{f} && |rest| == |tl| + 1
    ensures NewestFirst([hd] + rest)
    ensures forall g :: g in [hd] + rest <==> g == f || g in [hd] + tl
    ensures multiset([hd] + rest) == multiset([hd] + tl) + multiset{f}
  {
    var r := [hd] + rest;
    forall i, j | 0 <= i < j < |r| ensures r[i].createdAt >= r[j].createdAt {
      assert r[j] == rest[j - 1] && r[j] in rest;
      if i > 0 {
        assert r[i] == rest[i - 1];
      }
    }
    Lists.ConsCount(hd, tl, rest, f);
  }

  /** The sort of getAllForms: newest first by createdAt. */
  function SortByNewest(s: seq<Form>): (r: seq<Form>)
    ensures forall i, j | 0 <= i < j < |r| :: r[i].createdAt >= r[j].createdAt
    ensures forall g :: g in r <==> g in s
    ensures multiset(r) == multiset(s)
    ensures |r| == |s|
  {
    if s == [] then []
    else
      assert s == [s[0]] + s[1..];
      InsertByNewest(s[0], SortByNewest(s[1..]))
  }

  lemma {:induction false} InsertKeepsDistinctIds(f: Form, sorted: seq<Form>)
    requires forall i, j | 0 <= i < j < |sorted| :: sorted[i].createdAt >= sorted[j].createdAt
    requires DistinctIds(sorted) && forall g | g in sorted :: g.id != f.id
    ensures DistinctIds(InsertByNewest(f, sorted))
  {
    if sorted == [] || f.createdAt >= sorted[0].createdAt {
      DistinctIdsCons(f, sorted);
    } else {
      var tail := sorted[1..];
      assert sorted == [sorted[0]] + tail;
      DistinctIdsCons(sorted[0], tail);
      InsertKeepsDistinctIds(f, tail);
      var rest := InsertByNewest(f, tail);
      DistinctIdsCons(sorted[0], rest);
    }
  }

  /** Sorting never puts two forms with one id in the listing. */
  lemma {:induction false} SortKeepsDistinctIds(s: seq<Form>)
    requires DistinctIds(s)
    ensures DistinctIds(SortByNewest(s))
  {
    if s != [] {
      assert s == [s[0]] + s[1..];
      DistinctIdsCons(s[0], s[1..]);
      SortKeepsDistinctIds(s[1..]);
      InsertKeepsDistinctIds(s[0], SortByNewest(s[1..]));
    }
  }

  /**
   * Every form is stored under its own id; every index is a well-formed,
   * non-empty sorted set (Redis drops empty ones); and a submission record
   * exists exactly when its id is in its form's index, with the record's
   * submittedAt as the index score.
   */
  ghost predicate Consistent(forms: map<string, Form>, submissions: map<SubmissionKey, Submission>,
                             indexes: map<string, seq<SortedSet.Entry>>)
  {
    && (forall id | id in forms :: forms[id].id == id)
    && (forall f | f in indexes :: SortedSet.Valid(indexes[f]) && indexes[f] != [])
    && (forall k | k in submissions ::
          && k.formId in indexes
          && k.subId in SortedSet.MemberSet(indexes[k.formId])
          && SortedSet.Score(indexes[k.formId], k.subId) == submissions[k].submittedAt)
    && (forall f, i | f in indexes && 0 <= i < |indexes[f]| :: SubmissionKey(f, indexes[f][i].member) in submissions)
  }

  /** The submissions of every form but `formId`. */
  function Purge(submissions: map<SubmissionKey, Submission>, formId: string): (r: map<SubmissionKey, Submission>)
    ensures forall k :: k in r <==> k in submissions && k.formId != formId
    ensures forall k | k in r :: r[k] == submissions[k]
  {
    map k | k in submissions && k.formId != formId :: submissions[k]
  }

  /** Dropping a form's record, index and submissions keeps the store consistent. */
  lemma PurgeKeepsConsistent(forms: map<string, Form>, submissions: map<SubmissionKey, Submission>,
                             indexes: map<string, seq<SortedSet.Entry>>, formId: string)
    requires Consistent(forms, submissions, indexes)
    ensures Consistent(forms - {formId}, Purge(submissions, formId), indexes - {formId})
  {
    var subs := Purge(submissions, formId);
    var idx: map<string, seq<SortedSet.Entry>> := indexes - {formId};
    forall f, i | f in idx && 0 <= i < |idx[f]| ensures SubmissionKey(f, idx[f][i].member) in subs {
      assert SubmissionKey(f, indexes[f][i].member) in submissions;
    }
  }

  /** The keys `submission:<formId>:<id>` of the ids `subIds`, the keys deleteForm deletes. */
  function SubmissionKeys(formId: string, subIds: seq<string>): set<SubmissionKey> {
    set s | s in subIds :: SubmissionKey(formId, s)
  }

  /** Deleting the keys of the members of a form's index drops exactly that form's submissions. */
  lemma PurgeByMembers(submissions: map<SubmissionKey, Submission>, index: seq<SortedSet.Entry>,
                       formId: string, subIds: seq<string>)
    requires forall k | k in submissions && k.formId == formId :: k.subId in SortedSet.MemberSet(index)
    requires subIds == SortedSet.Members(index)
    ensures submissions - SubmissionKeys(formId, subIds) == Purge(submissions, formId)
    ensures subIds == [] ==> submissions == Purge(submissions, formId)
  {
    var keys := SubmissionKeys(formId, subIds);
    var rest, purged := submissions - keys, Purge(submissions, formId);
    forall k | k in submissions && k.formId == formId ensures k in keys {
      var i := SortedSet.PositionOf(index, k.subId);
      assert subIds[i] == k.subId;
    }
    assert forall k | k in keys :: k.formId == formId;
    assert forall k :: k in rest <==> k in purged;
    assert forall k | k in rest :: rest[k] == purged[k];
    if subIds == [] {
      assert keys == {};
      assert submissions == rest;
    }
  }

  /** What deleteForm's deletions leave: the other forms' submissions, still consistent with the other records and indexes. */
  lemma DeleteKeepsConsistent(forms: map<string, Form>, submissions: map<SubmissionKey, Submission>,
                              indexes: map<string, seq<SortedSet.Entry>>, formId: string, subIds: seq<string>)
    requires Consistent(forms, submissions, indexes)
    requires subIds == SortedSet.Members(if formId in indexes then indexes[formId] else [])
    ensures (if |subIds| > 0 then submissions - SubmissionKeys(formId, subIds) else submissions) == Purge(submissions, formId)
    ensures Consistent(forms - {formId}, Purge(submissions, formId), indexes - {formId})
  {
    var index := if formId in indexes then indexes[formId] else [];
    assert forall k | k in submissions && k.formId == formId :: k.subId in SortedSet.MemberSet(index);
    PurgeByMembers(submissions, index, formId, subIds);
    PurgeKeepsConsistent(forms, submissions, indexes, formId);
  }

  /**
   * Ids read from an index whose members all have records scored by their
   * submittedAt, listed once each by non-increasing score, have records
   * listed by non-increasing submittedAt.
   */
  lemma RankedIdsHaveRecords(submissions: map<SubmissionKey, Submission>, formId: string,
                             z: seq<SortedSet.Entry>, ids: seq<string>)
    requires forall m | m in SortedSet.MemberSet(z) ::
               && SubmissionKey(formId, m) in submissions
               && SortedSet.Score(z, m) == submissions[SubmissionKey(formId, m)].submittedAt
    requires forall i | 0 <= i < |ids| :: ids[i] in SortedSet.MemberSet(z)
    requires forall i, j | 0 <= i < j < |ids| ::
               SortedSet.Score(z, ids[i]) >= SortedSet.Score(z, ids[j]) && ids[i] != ids[j]
    ensures forall i | 0 <= i < |ids| :: SubmissionKey(formId, ids[i]) in submissions
    ensures forall i, j | 0 <= i < j < |ids| ::
              && ids[i] != ids[j]
              && submissions[SubmissionKey(formId, ids[i])].submittedAt
                   >= submissions[SubmissionKey(formId, ids[j])].submittedAt
  {
  }

  /**
   * Storing a submission and adding its id to its form's index with the
   * record's submittedAt as score keeps the store consistent; the record was
   * already there exactly when the id was already in the index.
   */
  lemma AddKeepsConsistent(forms: map<string, Form>, submissions: map<SubmissionKey, Submission>,
                           indexes: map<string, seq<SortedSet.Entry>>,
                           formId: string, id: string, submission: Submission)
    requires Consistent(forms, submissions, indexes)
    ensures var z := if formId in indexes then indexes[formId] else [];
            && (SubmissionKey(formId, id) in submissions <==> id in SortedSet.MemberSet(z))
            && Consistent(forms, submissions[SubmissionKey(formId, id) := submission],
                          indexes[formId := SortedSet.Add(z, id, submission.submittedAt)])
  {
    var z := if formId in indexes then indexes[formId] else [];
    var z' := SortedSet.Add(z, id, submission.submittedAt);
    var key := SubmissionKey(formId, id);
    if key in submissions {
      assert id in SortedSet.MemberSet(z);
    }
    if id in SortedSet.MemberSet(z) {
      var i := SortedSet.PositionOf(z, id);
    }
    AddRecordsIndexed(submissions, indexes, z, formId, id, submission);
    AddIndexedHaveRecords(submissions, indexes, z, formId, id, submission);
  }

  lemma AddRecordsIndexed(submissions: map<SubmissionKey, Submission>, indexes: map<string, seq<SortedSet.Entry>>,
                          z: seq<SortedSet.Entry>, formId: string, id: string, submission: Submission)
    requires SortedSet.Valid(z) && z == if formId in indexes then indexes[formId] else []
    requires forall k | k in submissions ::
               && k.formId in indexes
               && k.subId in SortedSet.MemberSet(indexes[k.formId])
               && SortedSet.Score(indexes[k.formId], k.subId) == submissions[k].submittedAt
    ensures var subs := submissions[SubmissionKey(formId, id) := submission];
            var idx := indexes[formId := SortedSet.Add(z, id, submission.submittedAt)];
            forall k | k in subs ::
              && k.formId in idx
              && k.subId in SortedSet.MemberSet(idx[k.formId])
              && SortedSet.Score(idx[k.formId], k.subId) == subs[k].submittedAt
  {
    var key := SubmissionKey(formId, id);
    var subs := submissions[key := submission];
    var idx: map<string, seq<SortedSet.Entry>> := indexes[formId := SortedSet.Add(z, id, submission.submittedAt)];
    forall k | k in subs
      ensures k.formId in idx && k.subId in SortedSet.MemberSet(idx[k.formId])
      ensures SortedSet.Score(idx[k.formId], k.subId) == subs[k].submittedAt
    {
      if k != key && k.formId == formId {
        assert k in submissions && k.subId in SortedSet.MemberSet(z);
      }
    }
  }

  lemma AddIndexedHaveRecords(submissions: map<SubmissionKey, Submission>, indexes: map<string, seq<SortedSet.Entry>>,
                              z: seq<SortedSet.Entry>, formId: string, id: string, submission: Submission)
    requires SortedSet.Valid(z) && z == if formId in indexes then indexes[formId] else []
    requires forall f, i | f in indexes && 0 <= i < |indexes[f]| :: SubmissionKey(f, indexes[f][i].member) in submissions
    ensures var subs := submissions[SubmissionKey(formId, id) := submission];
            var idx := indexes[formId := SortedSet.Add(z, id, submission.submittedAt)];
            forall f, i | f in idx && 0 <= i < |idx[f]| :: SubmissionKey(f, idx[f][i].member) in subs
  {
    var subs := submissions[SubmissionKey(formId, id) := submission];
    var z' := SortedSet.Add(z, id, submission.submittedAt);
    var idx: map<string, seq<SortedSet.Entry>> := indexes[formId := z'];
    forall f, i | f in idx && 0 <= i < |idx[f]| ensures SubmissionKey(f, idx[f][i].member) in subs {
      if f == formId {
        var m := z'[i].member;
        SortedSet.ScoreAt(z', i);
        if m != id {
          var j := SortedSet.PositionOf(z, m);
          assert SubmissionKey(f, indexes[f][j].member) in submissions;
        }
      } else {
        assert SubmissionKey(f, indexes[f][i].member) in submissions;
      }
    }
  }

  class Store {
    var forms: map<string, Form>
    var submissions: map<SubmissionKey, Submission>
    var formIds: set<string>
    var indexes: map<string, seq<SortedSet.Entry>>

    /** The store's consistency invariant, on its current contents. */
    ghost predicate Valid()
      reads this
    {
      Consistent(forms, submissions, indexes)
    }

    constructor ()
      ensures Valid()
      ensures forms == map[] && submissions == map[] && formIds == {} && indexes == map[]
    {
      forms, submissions, formIds, indexes := map[], map[], {}, map[];
    }

    /** The index of a form; an absent key reads as an empty sorted set. */
    function IndexOf(formId: string): (z: seq<SortedSet.Entry>)
      reads this
      ensures formId in indexes ==> z == indexes[formId]
      ensures formId !in indexes ==> z == []
    {
      if formId in indexes then indexes[formId] else []
    }

    /** The submission ids stored for a form. */
    ghost function StoredIds(formId: string): set<string>
      reads this
    {
      set k | k in submissions && k.formId == formId :: k.subId
    }

    /** createForm: writes the record and registers its id; an existing record is overwritten. */
    method CreateForm(form: Form)
      requires Valid()
      modifies this
      ensures Valid()
      ensures forms == old(forms)[form.id := form] && formIds == old(formIds) + {form.id}
      ensures submissions == old(submissions) && indexes == old(indexes)
      ensures GetForm(form.id) == Some(form)
    {
      forms := forms[form.id := form];
      formIds := formIds + {form.id};
    }

    /** getForm: the record stored under the id, or None. */
    function GetForm(id: string): (r: Option<Form>)
      reads this
      ensures r.Some? <==> id in forms
      ensures r.Some? ==> r.value == forms[id]
      ensures r.Some? && Valid() ==> r.value.id == id
    {
      if id in forms then Some(forms[id]) else None
    }

    /** updateForm: replaces the record only; the id set and all submission keys stay as they are. */
    method UpdateForm(form: Form)
      requires Valid()
      modifies this
      ensures Valid()
      ensures forms == old(forms)[form.id := form]
      ensures formIds == old(formIds) && submissions == old(submissions) && indexes == old(indexes)
    {
      forms := forms[form.id := form];
    }

    /**
     * deleteForm: reads the whole index, deletes every listed submission,
     * the index, the record, and the id from form_ids. Keys of other forms
     * are untouched.
     */
    method DeleteForm(id: string)
      requires Valid()
      modifies this
      ensures Valid()
      ensures forms == old(forms) - {id} && formIds == old(formIds) - {id}
      ensures indexes == old(indexes) - {id}
      ensures submissions == Purge(old(submissions), id)
      ensures GetForm(id) == None && GetSubmissionCount(id) == 0 && StoredIds(id) == {}
    {
      var subIds := SortedSet.Members(IndexOf(id));
      DeleteKeepsConsistent(forms, submissions, indexes, id, subIds);
      var remaining := submissions;
      if |subIds| > 0 {
        remaining := remaining - SubmissionKeys(id, subIds);
      }
      forms, submissions, indexes, formIds := forms - {id}, remaining, indexes - {id}, formIds - {id};
      assert forall k | k in submissions :: k.formId != id;
    }

    /** getAllFormIds: the members of form_ids, each once, in the store's enumeration order. */
    method GetAllFormIds() returns (ids: seq<string>)
      ensures forall x :: x in ids <==> x in formIds
      ensures forall i, j | 0 <= i < j < |ids| :: ids[i] != ids[j]
    {
      ids := [];
      var rest := formIds;
      while rest != {}
        invariant rest <= formIds
        invariant forall x :: x in ids <==> x in formIds && x !in rest
        invariant forall i, j | 0 <= i < j < |ids| :: ids[i] != ids[j]
        decreases rest
      {
        var x :| x in rest;
        ids := ids + [x];
        rest := rest - {x};
      }
    }

    /**
     * getAllForms: exactly the forms whose id is registered and whose record
     * exists, each once, newest first.
     */
    method GetAllForms() returns (r: seq<Form>)
      requires Valid()
      ensures forall f | f in r :: f.id in formIds && GetForm(f.id) == Some(f)
      ensures forall id | id in formIds && id in forms :: forms[id] in r
      ensures forall i, j | 0 <= i < j < |r| :: r[i].id != r[j].id
      ensures forall i, j | 0 <= i < j < |r| :: r[i].createdAt >= r[j].createdAt
      ensures formIds == {} ==> r == []
    {
      var ids := GetAllFormIds();
      assert formIds == {} ==> |ids| == 0 by {
        if |ids| > 0 { assert ids[0] in ids; }
      }
      if |ids| == 0 {
        return [];
      }
      var found := PresentForms(ids, forms);
      r := SortByNewest(found);
      SortKeepsDistinctIds(found);
    }

    /** createSubmission: stores the record under the given fresh id and adds the id to the form's index. */
    method CreateSubmission(formId: string, submission: Submission, id: string) returns (r: string)
      requires Valid()
      modifies this
      ensures Valid()
      ensures r == id
      ensures submissions == old(submissions)[SubmissionKey(formId, id) := submission]
      ensures indexes == old(indexes)[formId := SortedSet.Add(old(IndexOf(formId)), id, submission.submittedAt)]
      ensures forms == old(forms) && formIds == old(formIds)
      ensures GetSubmission(formId, id) == Some(WithId(submission, id))
      ensures GetSubmissionCount(formId) ==
                old(GetSubmissionCount(formId)) + (if SubmissionKey(formId, id) in old(submissions) then 0 else 1)
    {
      AddKeepsConsistent(forms, submissions, indexes, formId, id, submission);
      var z := IndexOf(formId);
      submissions := submissions[SubmissionKey(formId, id) := submission];
      indexes := indexes[formId := SortedSet.Add(z, id, submission.submittedAt)];
      r := id;
    }

    /** getSubmission: the record with its id attached, or None. */
    function GetSubmission(formId: string, id: string): (r: Option<SubmissionWithId>)
      reads this
      ensures r.Some? <==> SubmissionKey(formId, id) in submissions
      ensures r.Some? ==> r.value == WithId(submissions[SubmissionKey(formId, id)], id)
    {
      var key := SubmissionKey(formId, id);
      if key in submissions then Some(WithId(submissions[key], id)) else None
    }

    /** The records of `ids`, in order, skipping ids whose record is missing. */
    function Fetch(formId: string, ids: seq<string>): (r: seq<SubmissionWithId>)
      reads this
      ensures |r| <= |ids|
      ensures forall s | s in r :: s.id in ids && GetSubmission(formId, s.id) == Some(s)
      ensures (forall i | 0 <= i < |ids| :: SubmissionKey(formId, ids[i]) in submissions) ==>
                |r| == |ids| && forall i | 0 <= i < |ids| :: r[i] == WithId(submissions[SubmissionKey(formId, ids[i])], ids[i])
    {
      if ids == [] then []
      else
        var rest := Fetch(formId, ids[1..]);
        match GetSubmission(formId, ids[0])
        case Some(s) => [s] + rest
        case None => rest
    }

    /** The index ids a page reads: ZRANGE offset .. offset+limit-1 REV. */
    function PageIds(formId: string, limit: int, offset: int): (r: seq<string>)
      reads this
      ensures |r| <= |IndexOf(formId)|
      ensures formId !in indexes ==> r == []
    {
      SortedSet.RangeRev(IndexOf(formId), offset, offset + limit - 1)
    }

    /**
     * getSubmissions: the records of one page of the index, newest first.
     * Index entries whose record is missing are skipped; an absent index reads as empty.
     */
    function GetSubmissions(formId: string, limit: int, offset: int): (r: seq<SubmissionWithId>)
      reads this
      ensures |r| <= |PageIds(formId, limit, offset)|
      ensures limit >= 1 && offset >= 0 ==> |r| <= limit
      ensures formId !in indexes ==> r == []
      ensures forall s | s in r :: s.id in PageIds(formId, limit, offset) && GetSubmission(formId, s.id) == Some(s)
    {
      var ids := PageIds(formId, limit, offset);
      if |ids| == 0 then []
      else if limit >= 1 && offset >= 0 then
        SortedSet.PageIsSlice(IndexOf(formId), offset, limit);
        Fetch(formId, ids)
      else Fetch(formId, ids)
    }

    /** A page is the records of the ids it reads. */
    lemma PageIsFetch(formId: string, limit: int, offset: int)
      ensures GetSubmissions(formId, limit, offset) == Fetch(formId, PageIds(formId, limit, offset))
    {
    }

    /**
     * With the store consistent, every id a page reads is a stored submission,
     * no id is read twice, and the ids come by non-increasing submittedAt.
     */
    lemma PageIdsHaveRecords(formId: string, limit: int, offset: int)
      requires Valid()
      ensures var ids := PageIds(formId, limit, offset);
              && (forall i | 0 <= i < |ids| :: SubmissionKey(formId, ids[i]) in submissions)
              && (forall i, j | 0 <= i < j < |ids| ::
                    && ids[i] != ids[j]
                    && submissions[SubmissionKey(formId, ids[i])].submittedAt
                         >= submissions[SubmissionKey(formId, ids[j])].submittedAt)
    {
      if formId in indexes {
        var z := indexes[formId];
        SortedSet.RangeRevOrdered(z, offset, offset + limit - 1);
        forall m | m in SortedSet.MemberSet(z)
          ensures SubmissionKey(formId, m) in submissions
          ensures SortedSet.Score(z, m) == submissions[SubmissionKey(formId, m)].submittedAt
        {
          ScoreOfRecord(formId, m);
        }
        RankedIdsHaveRecords(submissions, formId, z, PageIds(formId, limit, offset));
      }
    }

    /** With the store consistent, a page drops nothing: it holds the record of every id it reads, in order. */
    lemma ListingDropsNothing(formId: string, limit: int, offset: int)
      requires Valid()
      ensures var ids := PageIds(formId, limit, offset);
              var r := GetSubmissions(formId, limit, offset);
              && |r| == |ids|
              && forall i | 0 <= i < |ids| :: r[i] == WithId(submissions[SubmissionKey(formId, ids[i])], ids[i])
    {
      PageIdsHaveRecords(formId, limit, offset);
      CompletePage(formId, limit, offset);
    }

    lemma CompletePage(formId: string, limit: int, offset: int)
      requires var ids := PageIds(formId, limit, offset);
               forall i | 0 <= i < |ids| :: SubmissionKey(formId, ids[i]) in submissions
      ensures var ids := PageIds(formId, limit, offset);
              var r := GetSubmissions(formId, limit, offset);
              && |r| == |ids|
              && forall i | 0 <= i < |ids| :: r[i] == WithId(submissions[SubmissionKey(formId, ids[i])], ids[i])
    {
      PageIsFetch(formId, limit, offset);
    }

    /** With the store consistent, a page is newest first and lists each submission once. */
    lemma ListingIsNewestFirst(formId: string, limit: int, offset: int)
      requires Valid()
      ensures var r := GetSubmissions(formId, limit, offset);
              forall i, j | 0 <= i < j < |r| :: r[i].submittedAt >= r[j].submittedAt && r[i].id != r[j].id
    {
      var ids := PageIds(formId, limit, offset);
      var r := GetSubmissions(formId, limit, offset);
      PageIdsHaveRecords(formId, limit, offset);
      CompletePage(formId, limit, offset);
      forall i, j | 0 <= i < j < |r| ensures r[i].submittedAt >= r[j].submittedAt && r[i].id != r[j].id {
        assert r[i].id == ids[i] && r[j].id == ids[j];
      }
    }

    /** The records of `k` successive pages, at offsets 0, limit, 2 * limit, ... */
    function PagedSubmissions(formId: string, limit: nat, k: nat): seq<SubmissionWithId>
      reads this
    {
      if k == 0 then []
      else PagedSubmissions(formId, limit, k - 1) + GetSubmissions(formId, limit, (k - 1) * limit)
    }

    /** Fetching two lists of ids one after the other is fetching their concatenation. */
    lemma {:induction false} FetchAppend(formId: string, a: seq<string>, b: seq<string>)
      ensures Fetch(formId, a + b) == Fetch(formId, a) + Fetch(formId, b)
    {
      if a != [] {
        assert (a + b)[0] == a[0] && (a + b)[1..] == a[1..] + b;
        FetchAppend(formId, a[1..], b);
      } else {
        assert a + b == b;
      }
    }

    /** Successive pages hold the records of the successive index pages, in order. */
    lemma {:induction false} PagedIsFetchOfPages(formId: string, limit: nat, k: nat)
      ensures PagedSubmissions(formId, limit, k) == Fetch(formId, SortedSet.Pages(IndexOf(formId), limit, k))
    {
      if k > 0 {
        SortedSet.NextOffset(k, limit);
        var o: nat := (k - 1) * limit;
        PagedIsFetchOfPages(formId, limit, k - 1);
        PagedStep(formId, limit, k, o);
      }
    }

    /** One more page: its records follow those of the pages before, as its ids follow theirs. */
    lemma PagedStep(formId: string, limit: nat, k: nat, o: nat)
      requires k >= 1 && o == (k - 1) * limit
      requires PagedSubmissions(formId, limit, k - 1) == Fetch(formId, SortedSet.Pages(IndexOf(formId), limit, k - 1))
      ensures PagedSubmissions(formId, limit, k) == Fetch(formId, SortedSet.Pages(IndexOf(formId), limit, k))
    {
      var z := IndexOf(formId);
      var before, page := SortedSet.Pages(z, limit, k - 1), PageIds(formId, limit, o);
      assert SortedSet.Pages(z, limit, k) == before + page;
      assert PagedSubmissions(formId, limit, k)
          == PagedSubmissions(formId, limit, k - 1) + GetSubmissions(formId, limit, o);
      PageIsFetch(formId, limit, o);
      FetchAppend(formId, before, page);
    }

    /**
     * Paging with any limit of at least one, far enough to pass the count,
     * reads what limit 0 reads: every stored submission of the form once,
     * newest first, as many as the count says.
     */
    lemma PagingReadsEveryRecordOnce(formId: string, limit: nat, k: nat)
      requires Valid() && limit >= 1 && k * limit >= GetSubmissionCount(formId)
      ensures PagedSubmissions(formId, limit, k) == GetSubmissions(formId, 0, 0)
      ensures var r := PagedSubmissions(formId, limit, k);
              && |r| == GetSubmissionCount(formId)
              && (forall i, j | 0 <= i < j < |r| :: r[i].id != r[j].id && r[i].submittedAt >= r[j].submittedAt)
              && (forall key | key in submissions && key.formId == formId :: exists i | 0 <= i < |r| :: r[i].id == key.subId)
    {
      var z := IndexOf(formId);
      var d := SortedSet.Descending(z);
      SortedSet.PagesPartition(z, limit, k);
      assert d[..|z|] == d;
      PagedIsFetchOfPages(formId, limit, k);
      SortedSet.LimitZeroReadsAll(z);
      PageIsFetch(formId, 0, 0);
      var r := GetSubmissions(formId, 0, 0);
      var ids := PageIds(formId, 0, 0);
      assert ids == d;
      ListingDropsNothing(formId, 0, 0);
      ListingIsNewestFirst(formId, 0, 0);
      forall key | key in submissions && key.formId == formId
        ensures exists i | 0 <= i < |r| :: r[i].id == key.subId
      {
        var p := SortedSet.PositionOf(z, key.subId);
        var i := |z| - 1 - p;
        assert d[i] == key.subId;
        assert r[i].id == ids[i];
      }
    }

    lemma ScoreOfRecord(formId: string, id: string)
      requires Valid() && formId in indexes && id in SortedSet.MemberSet(indexes[formId])
      ensures SubmissionKey(formId, id) in submissions
      ensures SortedSet.Score(indexes[formId], id) == submissions[SubmissionKey(formId, id)].submittedAt
    {
      var i := SortedSet.PositionOf(indexes[formId], id);
    }

    /** getSubmissionCount: the cardinality of the index, 0 when it is absent. */
    function GetSubmissionCount(formId: string): (r: nat)
      reads this
      ensures formId !in indexes ==> r == 0
      ensures formId in indexes ==> r == |indexes[formId]|
    {
      |IndexOf(formId)|
    }

    /** With the store consistent, the count is the number of stored records of the form. */
    lemma CountIsStoredRecords(formId: string)
      requires Valid()
      ensures GetSubmissionCount(formId) == |StoredIds(formId)|
    {
      if formId in indexes {
        var z := indexes[formId];
        assert StoredIds(formId) == SortedSet.MemberSet(z);
        SortedSet.MemberSetSize(z);
      } else {
        assert StoredIds(formId) == {};
      }
    }
  }
}
