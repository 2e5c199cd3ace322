/** `HomeController.MergeDocuments`: the transcripts of one student merged
    into one, keeping for each subject name the line with the best grade. */
module Merge {
  import opened Wrappers
  import opened Text
  import opened GradeScale
  import opened Records

  const MergedName: string := "Merged Document"

  /** The dictionary key of a line: its trimmed subject name in lower case.
      The dictionary compares keys ignoring case, which on lower-cased keys
      is plain equality (`Text.LoweredKeysCompareExactly`). */
  function SubjectKey(s: StudentSubject): string {
    Lower(Trim(s.subjectName))
  }

  /** The value of a line's grade, as the merge compares them. */
  function Worth(s: StudentSubject): real {
    GradeValue(s.grade)
  }

  /** The lines of all documents, document by document. */
  function AllLines(documents: seq<GraduationDocument>): seq<StudentSubject> {
    if documents == [] then []
    else AllLines(documents[..|documents| - 1]) + documents[|documents| - 1].subjects
  }

  /** The dictionary of kept lines, with its keys in the order they were
      added. The fold is stated for any key and any worth, so that the facts
      about it do not depend on how names are folded or grades valued. */
  datatype Kept<T> = Kept(lines: map<string, T>, order: seq<string>)

  /** The keys listed once each, exactly the keys of the dictionary, each
      holding a line with that key. */
  ghost predicate Coherent<T>(st: Kept<T>, key: T -> string) {
    && (forall k :: k in st.lines <==> k in st.order)
    && (forall i, j :: 0 <= i < j < |st.order| ==> st.order[i] != st.order[j])
    && (forall k :: k in st.lines ==> key(st.lines[k]) == k)
  }

  /** One step of the inner loop: a new key is added; a known key is replaced
      only by a strictly better line. */
  function Keep<T>(st: Kept<T>, s: T, key: T -> string, worth: T -> real): Kept<T> {
    var k := key(s);
    if k in st.lines then
      if worth(s) > worth(st.lines[k]) then Kept(st.lines[k := s], st.order) else st
    else Kept(st.lines[k := s], st.order + [k])
  }

  function KeepAll<T>(ss: seq<T>, key: T -> string, worth: T -> real): (st: Kept<T>)
    ensures Coherent(st, key)
  {
    if ss == [] then Kept(map[], [])
    else Keep(KeepAll(ss[..|ss| - 1], key, worth), ss[|ss| - 1], key, worth)
  }

  /** The kept lines, listed by their keys. */
  function Values<T>(st: Kept<T>, key: T -> string): (vs: seq<T>)
    requires Coherent(st, key)
    ensures |vs| == |st.order|
  {
    seq(|st.order|, i requires 0 <= i < |st.order| && Coherent(st, key) => st.lines[st.order[i]])
  }

  /** The merged document: the header of the first document (absent when
      there is none) and the kept lines. */
  function MergeOf(documents: seq<GraduationDocument>): GraduationDocument {
    var first := if documents == [] then None else Some(documents[0]);
    GraduationDocument(
      if first.None? then None else first.value.fullName,
      if first.None? then None else first.value.personalId,
      if first.None? then None else first.value.hasValidDegree,
      MergedName,
      Values(KeepAll(AllLines(documents), SubjectKey, Worth), SubjectKey))
  }

  // ---------------------------------------------------------------------------
  // Facts about the kept lines

  /** Line `i` is the first of the best lines with key `k`. */
  ghost predicate BestAt<T>(ss: seq<T>, k: string, i: int, key: T -> string, worth: T -> real) {
    && 0 <= i < |ss|
    && key(ss[i]) == k
    && (forall j :: 0 <= j < |ss| && key(ss[j]) == k ==> worth(ss[j]) <= worth(ss[i]))
    && (forall j :: 0 <= j < i && key(ss[j]) == k ==> worth(ss[j]) < worth(ss[i]))
  }

  /** A key is kept exactly when some line has it. */
  lemma {:induction false} KeepAllKeys<T>(ss: seq<T>, k: string, key: T -> string, worth: T -> real)
    ensures k in KeepAll(ss, key, worth).lines <==> exists i :: 0 <= i < |ss| && key(ss[i]) == k
  {
    if ss != [] {
      var init, last := ss[..|ss| - 1], ss[|ss| - 1];
      KeepAllKeys(init, k, key, worth);
      var st := KeepAll(init, key, worth);
      assert k in Keep(st, last, key, worth).lines <==> k in st.lines || k == key(last);
      if exists i :: 0 <= i < |ss| && key(ss[i]) == k {
        var i :| 0 <= i < |ss| && key(ss[i]) == k;
        if i < |init| {
          assert init[i] == ss[i];
        }
      }
      if exists i :: 0 <= i < |init| && key(init[i]) == k {
        var i :| 0 <= i < |init| && key(init[i]) == k;
        assert ss[i] == init[i];
      }
    }
  }

  /** A line with another key leaves the best line of `k` where it was. */
  lemma BestPastOther<T>(ss: seq<T>, s: T, k: string, i: int, key: T -> string, worth: T -> real)
    requires BestAt(ss, k, i, key, worth) && key(s) != k
    ensures BestAt(ss + [s], k, i, key, worth)
  {
    assert forall j :: 0 <= j < |ss| ==> (ss + [s])[j] == ss[j];
  }

  /** A strictly better line with key `k` becomes the best. */
  lemma BestReplaced<T>(ss: seq<T>, s: T, k: string, i: int, key: T -> string, worth: T -> real)
    requires BestAt(ss, k, i, key, worth) && key(s) == k && worth(s) > worth(ss[i])
    ensures BestAt(ss + [s], k, |ss|, key, worth)
  {
    assert forall j :: 0 <= j < |ss| ==> (ss + [s])[j] == ss[j];
  }

  /** A line with key `k` that is not better leaves the best where it was. */
  lemma BestKept<T>(ss: seq<T>, s: T, k: string, i: int, key: T -> string, worth: T -> real)
    requires BestAt(ss, k, i, key, worth) && key(s) == k && worth(s) <= worth(ss[i])
    ensures BestAt(ss + [s], k, i, key, worth)
  {
    assert forall j :: 0 <= j < |ss| ==> (ss + [s])[j] == ss[j];
  }

  /** The first line with key `k` is the best so far. */
  lemma BestFirst<T>(ss: seq<T>, s: T, k: string, key: T -> string, worth: T -> real)
    requires forall j :: 0 <= j < |ss| ==> key(ss[j]) != k
    requires key(s) == k
    ensures BestAt(ss + [s], k, |ss|, key, worth)
  {
    assert forall j :: 0 <= j < |ss| ==> (ss + [s])[j] == ss[j];
  }

  /** The line kept under a key is the first of the best lines with that key. */
  lemma {:induction false} KeepAllBest<T>(ss: seq<T>, k: string, key: T -> string, worth: T -> real)
    requires k in KeepAll(ss, key, worth).lines
    ensures exists i :: BestAt(ss, k, i, key, worth) && ss[i] == KeepAll(ss, key, worth).lines[k]
  {
    var init := ss[..|ss| - 1];
    var s := ss[|ss| - 1];
    assert init + [s] == ss;
    var before := KeepAll(init, key, worth);
    assert KeepAll(ss, key, worth) == Keep(before, s, key, worth);
    if k in before.lines {
      KeepAllBest(init, k, key, worth);
      var i :| BestAt(init, k, i, key, worth) && init[i] == before.lines[k];
      KeepBestStep(before, init, s, k, i, key, worth);
    } else {
      KeepAllKeys(init, k, key, worth);
      BestFirst(init, s, k, key, worth);
      assert Keep(before, s, key, worth).lines[k] == ss[|init|];
    }
  }

  /** One more line keeps the best line of a key already kept. */
  lemma KeepBestStep<T>(st: Kept<T>, ss: seq<T>, s: T, k: string, i: int, key: T -> string, worth: T -> real)
    requires k in st.lines && BestAt(ss, k, i, key, worth) && ss[i] == st.lines[k]
    ensures exists i' :: BestAt(ss + [s], k, i', key, worth) && (ss + [s])[i'] == Keep(st, s, key, worth).lines[k]
  {
    if key(s) != k {
      BestPastOther(ss, s, k, i, key, worth);
      assert (ss + [s])[i] == ss[i];
    } else if worth(s) > worth(st.lines[k]) {
      BestReplaced(ss, s, k, i, key, worth);
      assert (ss + [s])[|ss|] == s;
    } else {
      BestKept(ss, s, k, i, key, worth);
      assert (ss + [s])[i] == ss[i];
    }
  }

  // ---------------------------------------------------------------------------
  // Facts about the merged document

  lemma ValuesAt<T>(st: Kept<T>, key: T -> string, i: nat)
    requires Coherent(st, key) && i < |st.order|
    ensures st.order[i] in st.lines && Values(st, key)[i] == st.lines[st.order[i]]
  {
  }

  /** No two merged lines share a trimmed, lower-cased subject name. */
  lemma MergedKeysDistinct(documents: seq<GraduationDocument>, i: nat, j: nat)
    requires i < j < |MergeOf(documents).subjects|
    ensures SubjectKey(MergeOf(documents).subjects[i]) != SubjectKey(MergeOf(documents).subjects[j])
  {
    var st := KeepAll(AllLines(documents), SubjectKey, Worth);
    ValuesAt(st, SubjectKey, i);
    ValuesAt(st, SubjectKey, j);
  }

  /** Every input key has a merged line. */
  lemma MergedCoversInput(documents: seq<GraduationDocument>, s: StudentSubject)
    requires s in AllLines(documents)
    ensures exists t :: t in MergeOf(documents).subjects && SubjectKey(t) == SubjectKey(s)
  {
    var ss := AllLines(documents);
    var st := KeepAll(ss, SubjectKey, Worth);
    var i :| 0 <= i < |ss| && ss[i] == s;
    KeepAllKeys(ss, SubjectKey(s), SubjectKey, Worth);
    var n :| 0 <= n < |st.order| && st.order[n] == SubjectKey(s);
    ValuesAt(st, SubjectKey, n);
    assert Values(st, SubjectKey)[n] in MergeOf(documents).subjects;
  }

  /** Every merged line is an input line, the best of its key, and the first
      such in document order: ties keep the earlier line. */
  lemma MergedKeepsBest(documents: seq<GraduationDocument>, t: StudentSubject)
    requires t in MergeOf(documents).subjects
    ensures exists i :: BestAt(AllLines(documents), SubjectKey(t), i, SubjectKey, Worth) && AllLines(documents)[i] == t
  {
    var ss := AllLines(documents);
    var st := KeepAll(ss, SubjectKey, Worth);
    var vs := Values(st, SubjectKey);
    var n :| 0 <= n < |vs| && vs[n] == t;
    ValuesAt(st, SubjectKey, n);
    KeepAllBest(ss, st.order[n], SubjectKey, Worth);
  }

  /** The header is that of the first document, and absent when there is none. */
  lemma MergedHeader(documents: seq<GraduationDocument>)
    ensures documents != [] ==> MergeOf(documents).fullName == documents[0].fullName
    ensures documents != [] ==> MergeOf(documents).personalId == documents[0].personalId
    ensures documents != [] ==> MergeOf(documents).hasValidDegree == documents[0].hasValidDegree
    ensures documents == [] ==>
      MergeOf(documents).fullName.None? && MergeOf(documents).personalId.None? && MergeOf(documents).hasValidDegree.None?
  {
  }

  // ---------------------------------------------------------------------------
  // The loops

  lemma AllLinesStep(documents: seq<GraduationDocument>, d: nat)
    requires d < |documents|
    ensures AllLines(documents[..d + 1]) == AllLines(documents[..d]) + documents[d].subjects
  {
    assert documents[..d + 1][..d] == documents[..d];
  }

  /** Keeping the next line of a document. */
  lemma KeepNext(done: seq<StudentSubject>, subjects: seq<StudentSubject>, j: nat)
    requires j < |subjects|
    ensures KeepAll(done + subjects[..j + 1], SubjectKey, Worth)
         == Keep(KeepAll(done + subjects[..j], SubjectKey, Worth), subjects[j], SubjectKey, Worth)
  {
    assert done + subjects[..j + 1] == (done + subjects[..j]) + [subjects[j]];
    KeepAllSnoc(done + subjects[..j], subjects[j], SubjectKey, Worth);
  }

  lemma KeepAllSnoc<T>(ss: seq<T>, s: T, key: T -> string, worth: T -> real)
    ensures KeepAll(ss + [s], key, worth) == Keep(KeepAll(ss, key, worth), s, key, worth)
  {
    assert (ss + [s])[..|ss|] == ss;
  }

  /** The body of the inner loop: one line looked up, and stored when its key
      is new or its grade is strictly better. */
  method KeepLine(lines: map<string, StudentSubject>, keys: seq<string>, subject: StudentSubject)
      returns (lines': map<string, StudentSubject>, keys': seq<string>)
    ensures Kept(lines', keys') == Keep(Kept(lines, keys), subject, SubjectKey, Worth)
  {
    lines', keys' := lines, keys;
    var key := Lower(Trim(subject.subjectName));
    if key in lines {
      var existing := lines[key];
      var existingGradeValue := GradeValue(existing.grade);
      var newGradeValue := GradeValue(subject.grade);
      if newGradeValue > existingGradeValue {
        lines' := lines[key := subject];
      }
    } else {
      lines' := lines[key := subject];
      keys' := keys + [key];
    }
  }

  /** The inner loop: the lines of one document kept after those of the
      documents before it. */
  method KeepLines(lines: map<string, StudentSubject>, keys: seq<string>, subjects: seq<StudentSubject>,
                   ghost done: seq<StudentSubject>)
      returns (lines': map<string, StudentSubject>, keys': seq<string>)
    requires Kept(lines, keys) == KeepAll(done, SubjectKey, Worth)
    ensures Kept(lines', keys') == KeepAll(done + subjects, SubjectKey, Worth)
  {
    lines', keys' := lines, keys;
    assert done + subjects[..0] == done;
    for j := 0 to |subjects|
      invariant Kept(lines', keys') == KeepAll(done + subjects[..j], SubjectKey, Worth)
    {
      KeepNext(done, subjects, j);
      lines', keys' := KeepLine(lines', keys', subjects[j]);
    }
    assert subjects[..|subjects|] == subjects;
  }

  method MergeDocuments(documents: seq<GraduationDocument>) returns (merged: GraduationDocument)
    ensures merged == MergeOf(documents)
  {
    var fullName, personalId, hasValidDegree := None, None, None;
    if |documents| > 0 {
      fullName, personalId, hasValidDegree := documents[0].fullName, documents[0].personalId, documents[0].hasValidDegree;
    }
    var lines: map<string, StudentSubject> := map[];
    var keys: seq<string> := [];
    for d := 0 to |documents|
      invariant Kept(lines, keys) == KeepAll(AllLines(documents[..d]), SubjectKey, Worth)
    {
      AllLinesStep(documents, d);
      lines, keys := KeepLines(lines, keys, documents[d].subjects, AllLines(documents[..d]));
    }
    assert documents[..|documents|] == documents;
    merged := GraduationDocument(fullName, personalId, hasValidDegree, MergedName, Values(Kept(lines, keys), SubjectKey));
  }
}
