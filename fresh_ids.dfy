/**
 * Fresh identifiers. The servers draw ids from a random generator
 * (`SecureRandom.uuid`, `SecureRandom.hex`) and, where they check at all,
 * retry until the id is unused; the model picks any string outside the ids
 * in use, which exists because a finite set never exhausts the strings.
 */
module FreshIds {
  /** An upper bound on the lengths of a finite set of strings. */
  ghost function MaxLength(ids: set<string>): (m: nat)
    ensures forall id :: id in ids ==> |id| <= m
  {
    if ids == {} then 0
    else
      var id :| id in ids;
      var rest := MaxLength(ids - {id});
      if |id| > rest then |id| else rest
  }

  /** A string longer than every id in `ids` is not among them. */
  lemma FreshIdExists(ids: set<string>)
    ensures exists id: string :: id !in ids
  {
    var longer := seq(MaxLength(ids) + 1, _ => 'k');
    assert longer !in ids;
  }
}
