/**
 * Special-hairpin lookup of the energy-model accessor (lookup_find in
 * prna-omp/prna.cpp): hairpin loops of 3, 4 and 6 unpaired bases are first
 * looked up in the triloop, tetraloop and hexaloop tables; any other loop
 * length has no table.  The comparison of a loop with a table entry
 * (sequences_match) is defined outside this file and is a parameter here.
 */
module PrnaLookup {
  import opened Wrappers

  /** One tabulated special hairpin: its closing-pair-plus-loop sequence and its energy. */
  datatype SpecialHairpin<B> = SpecialHairpin(motif: seq<B>, val: real)

  datatype HairpinTables<B> = HairpinTables(
    triloop: seq<SpecialHairpin<B>>,
    tloop: seq<SpecialHairpin<B>>,
    hexaloop: seq<SpecialHairpin<B>>)

  /** The switch on the loop length: which table, if any, holds loops of d unpaired bases. */
  function TableFor<B>(p: HairpinTables<B>, d: int): Option<seq<SpecialHairpin<B>>>
  {
    match d
    case 3 => Some(p.triloop)
    case 4 => Some(p.tloop)
    case 6 => Some(p.hexaloop)
    case _ => None
  }

  /**
   * lookup_find: the value of the FIRST entry of the table for loop length d
   * whose motif matches the d + 2 bases starting at the closing base; nothing
   * when d has no table or no entry matches.
   */
  method LookupFind<B>(s: seq<B>, d: int, p: HairpinTables<B>, matches: (seq<B>, seq<B>, int) -> bool)
    returns (r: Option<real>)
    ensures d != 3 && d != 4 && d != 6 ==> r.None?
    ensures r.None? <==>
      TableFor(p, d).None? ||
      forall k :: 0 <= k < |TableFor(p, d).value| ==> !matches(s, TableFor(p, d).value[k].motif, d + 2)
    ensures r.Some? ==>
      exists k :: 0 <= k < |TableFor(p, d).value| &&
        matches(s, TableFor(p, d).value[k].motif, d + 2) &&
        TableFor(p, d).value[k].val == r.value &&
        forall k' :: 0 <= k' < k ==> !matches(s, TableFor(p, d).value[k'].motif, d + 2)
  {
    var table := TableFor(p, d);
    if table.None? {
      return None;
    }
    var t := table.value;
    var i := 0;
    while i < |t|
      invariant 0 <= i <= |t|
      invariant forall k :: 0 <= k < i ==> !matches(s, t[k].motif, d + 2)
    {
      if matches(s, t[i].motif, d + 2) {
        return Some(t[i].val);
      }
      i := i + 1;
    }
    return None;
  }
}
