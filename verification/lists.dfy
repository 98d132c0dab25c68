/** Concatenating a sequence of lists, as repeated `list.extend` calls
    do, and what the result contains. */
module Lists {
  /** The lists one after the other. */
  function Concat(rs: seq<seq<string>>): seq<string>
  {
    if rs == [] then [] else Concat(rs[..|rs| - 1]) + rs[|rs| - 1]
  }

  lemma {:induction false} ConcatMembers(rs: seq<seq<string>>, x: string)
    ensures x in Concat(rs) <==> exists i :: 0 <= i < |rs| && x in rs[i]
  {
    if rs != [] {
      var n := |rs| - 1;
      ConcatMembers(rs[..n], x);
      if exists i :: 0 <= i < n && x in rs[..n][i] {
        var i :| 0 <= i < n && x in rs[..n][i];
        assert rs[i] == rs[..n][i];
      }
      if exists i :: 0 <= i < |rs| && x in rs[i] {
        var i :| 0 <= i < |rs| && x in rs[i];
        if i < n {
          assert rs[..n][i] == rs[i];
        }
      }
    }
  }
}
