/** The vendor prettifier applied to the processor vendor string: a table of
    exact, case-sensitive renamings, searched in order up to its end or to
    an entry without a vendor, the first match winning. */
module Vendor {
  import opened Wrappers

  /** One table entry; a missing vendor ends the table early. */
  datatype Mapping = Mapping(vendor: Option<string>, prettier: string)

  /** The program's table. */
  const Mappings: seq<Mapping> := [
    Mapping(Some("AuthenticAMD"), "AMD"),
    Mapping(Some("GenuineIntel"), "Intel")
  ]

  /** The entries the loop can reach: those before the first entry
      without a vendor. */
  function Reach(table: seq<Mapping>): (n: nat)
    ensures n <= |table|
    ensures forall k :: 0 <= k < n ==> table[k].vendor.Some?
    ensures n < |table| ==> table[n].vendor.None?
  {
    if |table| == 0 || table[0].vendor.None? then 0 else 1 + Reach(table[1..])
  }

  /** Whether reachable entry `k` renames `name`. */
  predicate Renames(table: seq<Mapping>, k: nat, name: string)
    requires k < |table|
  {
    table[k].vendor == Some(name)
  }

  /** Position of the first reachable entry that renames `name`. */
  function FirstMatch(table: seq<Mapping>, name: string): (m: Option<nat>)
    ensures m.Some? ==> m.value < Reach(table)
  {
    FirstMatchFrom(table, name, 0)
  }

  function FirstMatchFrom(table: seq<Mapping>, name: string, k: nat): (m: Option<nat>)
    requires k <= Reach(table)
    ensures m.Some? ==> k <= m.value < Reach(table)
    decreases Reach(table) - k
  {
    if k == Reach(table) then None
    else if Renames(table, k, name) then Some(k)
    else FirstMatchFrom(table, name, k + 1)
  }

  /** The first match is a reachable entry renaming `name` with no earlier
      one doing so, and there is none exactly when no reachable entry
      renames `name`. */
  lemma {:induction false} FirstMatchFromIsFirst(table: seq<Mapping>, name: string, k: nat)
    requires k <= Reach(table)
    ensures var m := FirstMatchFrom(table, name, k);
      && (m.Some? ==>
            && k <= m.value < Reach(table) && Renames(table, m.value, name)
            && forall j :: k <= j < m.value ==> !Renames(table, j, name))
      && (m.None? ==> forall j :: k <= j < Reach(table) ==> !Renames(table, j, name))
    decreases Reach(table) - k
  {
    if k < Reach(table) && !Renames(table, k, name) {
      FirstMatchFromIsFirst(table, name, k + 1);
    }
  }

  /** The reference result: the first matching entry's replacement, or the
      name unchanged. */
  function Pretty(table: seq<Mapping>, name: string): string {
    match FirstMatch(table, name)
    case Some(k) => table[k].prettier
    case None => name
  }

  /** A vendor renamed by some reachable entry becomes the replacement of
      the first such entry; any other vendor is left as it is. */
  lemma PrettyMeaning(table: seq<Mapping>, name: string, k: nat)
    ensures (forall j :: 0 <= j < Reach(table) ==> !Renames(table, j, name)) ==>
      Pretty(table, name) == name
    ensures
      (&& k < Reach(table) && Renames(table, k, name)
       && (forall j :: 0 <= j < k ==> !Renames(table, j, name)))
      ==> Pretty(table, name) == table[k].prettier
  {
    FirstMatchFromIsFirst(table, name, 0);
    var m := FirstMatch(table, name);
    if m.Some? && k < Reach(table) && Renames(table, k, name) && m.value < k {
      assert Renames(table, m.value, name);
    }
  }

  /** The lookup loop: compares the vendor with each reachable entry in
      order and copies the first match's replacement over it. */
  method Prettify(table: seq<Mapping>, vendor: string) returns (r: string)
    ensures r == Pretty(table, vendor)
  {
    r := vendor;
    var i := 0;
    while i < |table| && table[i].vendor.Some?
      invariant i <= Reach(table)
      invariant FirstMatch(table, vendor) == FirstMatchFrom(table, vendor, i)
      decreases |table| - i
    {
      if table[i].vendor.value == vendor {
        r := table[i].prettier;
        return;
      }
      i := i + 1;
    }
  }

  /** When no replacement is itself a reachable vendor, renaming twice is
      renaming once. */
  lemma PrettyIdempotent(table: seq<Mapping>, name: string)
    requires forall k, j :: 0 <= k < Reach(table) && 0 <= j < Reach(table) ==>
      !Renames(table, j, table[k].prettier)
    ensures Pretty(table, Pretty(table, name)) == Pretty(table, name)
  {
    FirstMatchFromIsFirst(table, name, 0);
    var once := Pretty(table, name);
    FirstMatchFromIsFirst(table, once, 0);
    if FirstMatch(table, name).None? {
      assert once == name;
    }
  }

  /** The program's table renames the two known vendors and nothing else,
      and its replacements are left alone. */
  lemma MappingsBehaviour(name: string)
    ensures Pretty(Mappings, "AuthenticAMD") == "AMD"
    ensures Pretty(Mappings, "GenuineIntel") == "Intel"
    ensures name != "AuthenticAMD" && name != "GenuineIntel" ==> Pretty(Mappings, name) == name
    ensures Pretty(Mappings, Pretty(Mappings, name)) == Pretty(Mappings, name)
  {
  }
}
