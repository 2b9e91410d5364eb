/** The result table of `print_coop`: one row per energy level, energy in column 0
    and COOP in column 1, in the original level order. */
module ResultTable {

  /** Allocates a zero table of `|coop|` rows and two columns, then fills column 0
      with the energies and column 1 with the COOP values. */
  method CoopTable(energies: seq<real>, coop: seq<real>) returns (table: array2<real>)
    requires |energies| == |coop|
    ensures fresh(table)
    ensures table.Length0 == |coop| && table.Length1 == 2
    ensures forall k :: 0 <= k < |coop| ==> table[k, 0] == energies[k] && table[k, 1] == coop[k]
  {
    table := new real[|coop|, 2]((_, _) => 0.0);
    var k := 0;
    while k < |coop|
      invariant 0 <= k <= |coop|
      invariant forall j :: 0 <= j < k ==> table[j, 0] == energies[j]
    {
      table[k, 0] := energies[k];
      k := k + 1;
    }
    k := 0;
    while k < |coop|
      invariant 0 <= k <= |coop|
      invariant forall j :: 0 <= j < |coop| ==> table[j, 0] == energies[j]
      invariant forall j :: 0 <= j < k ==> table[j, 1] == coop[j]
    {
      table[k, 1] := coop[k];
      k := k + 1;
    }
  }
}
