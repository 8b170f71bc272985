/** Assembly of the exam's question sequence from the three per-subject
    catalog queries. */
module QuestionSet {
  import opened ExamTypes

  /** The first `n` elements of `s`, or all of it when it is shorter
      (the query's row limit). */
  function Take<T>(s: seq<T>, n: nat): (r: seq<T>)
    ensures |r| <= n && |r| <= |s|
    ensures |s| >= n ==> |r| == n
    ensures |s| <= n ==> r == s
    ensures r == s[..|r|]
  {
    if |s| <= n then s else s[..n]
  }

  /** The catalog query for one block: the questions of `subject` in the
      catalog's retrieval order, at most `limit` of them. */
  function SubjectQuery(catalog: seq<Question>, subject: Subject, limit: nat): seq<Question>
  {
    Take(OfSubject(catalog, subject), limit)
  }

  /** The rows of a query, or none when the query returned no data. */
  function RowsOrEmpty(rows: Option<seq<Question>>): seq<Question>
  {
    if rows.Some? then rows.value else []
  }

  /** The exam's question sequence: the Physics rows, then the Chemistry
      rows, then the Mathematics rows. */
  function AllQuestions(physics: Option<seq<Question>>, chemistry: Option<seq<Question>>,
                        mathematics: Option<seq<Question>>): (r: seq<Question>)
    ensures |r| == |RowsOrEmpty(physics)| + |RowsOrEmpty(chemistry)| + |RowsOrEmpty(mathematics)|
  {
    RowsOrEmpty(physics) + RowsOrEmpty(chemistry) + RowsOrEmpty(mathematics)
  }

  /** Position of a subject in the exam order. */
  function Rank(s: Subject): nat
  {
    match s
    case Physics => 0
    case Chemistry => 1
    case Mathematics => 2
  }

  /** The rows of one query all have that query's subject. */
  lemma {:induction false} QueryRowsHaveSubject(catalog: seq<Question>, subject: Subject, limit: nat, q: Question)
    requires q in SubjectQuery(catalog, subject, limit)
    ensures q.subject == subject && q in catalog
  {
    var all := OfSubject(catalog, subject);
    assert q in all;
  }

  /** Filtering a block whose rows all have subject `s` by `s` keeps it whole,
      and filtering it by any other subject yields nothing. */
  lemma {:induction false} OfSubjectOfBlock(block: seq<Question>, s: Subject, t: Subject)
    requires forall q :: q in block ==> q.subject == s
    ensures OfSubject(block, t) == if s == t then block else []
  {
    if block != [] {
      assert block[0] in block;
      assert forall q :: q in block[1..] ==> q in block;
      OfSubjectOfBlock(block[1..], s, t);
      assert block == [block[0]] + block[1..];
    }
  }

  /** A block whose rows all have subject `s`. */
  ghost predicate Block(rows: seq<Question>, s: Subject)
  {
    forall q :: q in rows ==> q.subject == s
  }

  /** Three consecutive subject blocks are in exam order. */
  lemma BlocksOrdered(p: seq<Question>, c: seq<Question>, m: seq<Question>)
    requires Block(p, Physics) && Block(c, Chemistry) && Block(m, Mathematics)
    ensures var r := p + c + m;
            forall i, j :: 0 <= i < j < |r| ==> Rank(r[i].subject) <= Rank(r[j].subject)
  {
    var r := p + c + m;
    forall i | 0 <= i < |r|
      ensures Rank(r[i].subject) == if i < |p| then 0 else if i < |p| + |c| then 1 else 2
    {
      if i < |p| { assert r[i] == p[i] && p[i] in p; }
      else if i < |p| + |c| { assert r[i] == c[i - |p|] && c[i - |p|] in c; }
      else { assert r[i] == m[i - |p| - |c|] && m[i - |p| - |c|] in m; }
    }
  }

  /** Filtering three consecutive subject blocks by a subject yields that
      subject's block. */
  lemma BlocksFiltered(p: seq<Question>, c: seq<Question>, m: seq<Question>, t: Subject)
    requires Block(p, Physics) && Block(c, Chemistry) && Block(m, Mathematics)
    ensures OfSubject(p + c + m, t) == match t
                                       case Physics => p
                                       case Chemistry => c
                                       case Mathematics => m
  {
    OfSubjectAppend(p + c, m, t);
    OfSubjectAppend(p, c, t);
    OfSubjectOfBlock(p, Physics, t);
    OfSubjectOfBlock(c, Chemistry, t);
    OfSubjectOfBlock(m, Mathematics, t);
  }

  /** The assembled sequence, when each block comes from its subject query:
      blocks never exceed their quotas, they come in the order Physics,
      Chemistry, Mathematics, and each subject's questions are exactly that
      subject's query rows in retrieval order. A block whose query returned
      no data contributes nothing. */
  lemma AssembledFromQueries(catalog: seq<Question>, physicsQuota: nat, chemistryQuota: nat, mathQuota: nat,
                             physicsOk: bool, chemistryOk: bool, mathOk: bool)
    ensures var p := SubjectQuery(catalog, Physics, physicsQuota);
            var c := SubjectQuery(catalog, Chemistry, chemistryQuota);
            var m := SubjectQuery(catalog, Mathematics, mathQuota);
            var r := AllQuestions(if physicsOk then Some(p) else None,
                                  if chemistryOk then Some(c) else None,
                                  if mathOk then Some(m) else None);
            && |r| <= physicsQuota + chemistryQuota + mathQuota
            && (forall i, j :: 0 <= i < j < |r| ==> Rank(r[i].subject) <= Rank(r[j].subject))
            && OfSubject(r, Physics) == (if physicsOk then p else [])
            && OfSubject(r, Chemistry) == (if chemistryOk then c else [])
            && OfSubject(r, Mathematics) == (if mathOk then m else [])
  {
    var p := SubjectQuery(catalog, Physics, physicsQuota);
    var c := SubjectQuery(catalog, Chemistry, chemistryQuota);
    var m := SubjectQuery(catalog, Mathematics, mathQuota);
    var p': seq<Question> := if physicsOk then p else [];
    var c': seq<Question> := if chemistryOk then c else [];
    var m': seq<Question> := if mathOk then m else [];
    forall q: Question | q in p' ensures q.subject == Physics { QueryRowsHaveSubject(catalog, Physics, physicsQuota, q); }
    forall q: Question | q in c' ensures q.subject == Chemistry { QueryRowsHaveSubject(catalog, Chemistry, chemistryQuota, q); }
    forall q: Question | q in m' ensures q.subject == Mathematics { QueryRowsHaveSubject(catalog, Mathematics, mathQuota, q); }
    assert AllQuestions(if physicsOk then Some(p) else None,
                        if chemistryOk then Some(c) else None,
                        if mathOk then Some(m) else None) == p' + c' + m';
    BlocksOrdered(p', c', m');
    BlocksFiltered(p', c', m', Physics);
    BlocksFiltered(p', c', m', Chemistry);
    BlocksFiltered(p', c', m', Mathematics);
  }

  /** When the catalog holds at least the quota of each subject and every
      query succeeds, the sequence has exactly the sum of the quotas. */
  lemma FullBlocks(catalog: seq<Question>, physicsQuota: nat, chemistryQuota: nat, mathQuota: nat)
    requires |OfSubject(catalog, Physics)| >= physicsQuota
    requires |OfSubject(catalog, Chemistry)| >= chemistryQuota
    requires |OfSubject(catalog, Mathematics)| >= mathQuota
    ensures |AllQuestions(Some(SubjectQuery(catalog, Physics, physicsQuota)),
                          Some(SubjectQuery(catalog, Chemistry, chemistryQuota)),
                          Some(SubjectQuery(catalog, Mathematics, mathQuota)))|
            == physicsQuota + chemistryQuota + mathQuota
  {
  }
}
