/** A subject's grade record and the record comparisons shared by the notifier and the store. */
module Grades {
  import opened Wrappers
  import opened Dicts

  /** Score label to score text (None when the portal shows no score yet), in table order. */
  type Scores = Dict<string, Option<string>>

  /** One subject: the dict `{'nome': name, 'notas': scores, 'media': average}`. */
  datatype Record = Record(name: string, scores: Scores, average: Option<string>)

  /** Python `a == b` on two record dicts; the score dicts compare as unordered maps. */
  predicate Same(a: Record, b: Record)
  {
    a.name == b.name && Equal(a.scores, b.scores) && a.average == b.average
  }

  /** Python `previous != current`, where `previous` may be None. */
  predicate Differs(previous: Option<Record>, current: Record)
  {
    previous.None? || !Same(previous.value, current)
  }

  /** The `(g['nome'], g)` pairs of a list of records. */
  function NamePairs(rs: seq<Record>): (ps: Dict<string, Record>)
    ensures |ps| == |rs|
    ensures forall i :: 0 <= i < |rs| ==> ps[i] == (rs[i].name, rs[i])
  {
    seq(|rs|, i requires 0 <= i < |rs| => (rs[i].name, rs[i]))
  }

  /** The subject names of a list of records, in list order. */
  function Names(rs: seq<Record>): seq<string>
  {
    Keys(NamePairs(rs))
  }

  /** In a list that names each subject once, two records have the same name exactly when they are the same entry. */
  lemma SameNameSameIndex(rs: seq<Record>, i: nat, j: nat)
    requires Distinct(Names(rs)) && i < |rs| && j < |rs|
    ensures rs[i].name == rs[j].name <==> i == j
  {
    assert Names(rs)[i] == rs[i].name && Names(rs)[j] == rs[j].name;
  }

  /** Python `{g['nome']: g for g in rs}`. */
  function ByName(rs: seq<Record>): Dict<string, Record>
  {
    FromPairs(NamePairs(rs))
  }

  /** `ByName(rs).get(n)` is the last record of `rs` named `n`, or None when no record is. */
  lemma ByNameGet(rs: seq<Record>, n: string)
    ensures Get(ByName(rs), n).None? <==> n !in Names(rs)
    ensures Get(ByName(rs), n).Some? ==>
      exists i :: 0 <= i < |rs| && rs[i] == Get(ByName(rs), n).value && rs[i].name == n
        && forall j :: i < j < |rs| ==> rs[j].name != n
  {
    FromPairsGet(NamePairs(rs), n);
  }

  /** The names in `ByName(rs)` are those of `rs`, each where it first occurs. */
  lemma ByNameKeys(rs: seq<Record>)
    ensures Keys(ByName(rs)) == FirstOccurrences(Names(rs))
  {
    FromPairsKeys(NamePairs(rs));
  }

  /** A record never differs from itself, and records equal up to score order do not differ. */
  lemma SameUpToScoreOrder(a: Record, b: Record)
    requires a.name == b.name && a.average == b.average
    requires WellFormed(a.scores) && WellFormed(b.scores) && multiset(a.scores) == multiset(b.scores)
    ensures !Differs(Some(a), b)
  {
    ReorderedEqual(a.scores, b.scores);
  }
}
