/** The class index of the corpus (`read_class_mapping`) and the resolution of requested
    display names to machine identifiers (`real_labels` in `download`). */
module ClassMapping {
  import opened Wrappers

  /** One row of the class index table: a machine identifier ("mid") and its display name. */
  datatype ClassEntry = ClassEntry(mid: string, displayName: string)

  /** Entry `i` is the last one in the table carrying its display name. */
  ghost predicate IsLastWithName(table: seq<ClassEntry>, i: int)
    requires 0 <= i < |table|
  {
    forall j :: i < j < |table| ==> table[j].displayName != table[i].displayName
  }

  /** `dict(zip(display_name, mid))`: every display name of the table is a key, and it maps to
      the mid of the LAST entry with that name, since later pairs overwrite earlier ones. */
  function DisplayToMachine(table: seq<ClassEntry>): (m: map<string, string>)
    ensures forall i :: 0 <= i < |table| ==> table[i].displayName in m
    ensures forall i :: 0 <= i < |table| && IsLastWithName(table, i) ==> m[table[i].displayName] == table[i].mid
    ensures forall k | k in m :: exists i :: 0 <= i < |table| && table[i].displayName == k && m[k] == table[i].mid
  {
    if |table| == 0 then map[]
    else
      var init := table[..|table| - 1];
      var last := table[|table| - 1];
      var m := DisplayToMachine(init);
      LastWithNameInPrefix(table);
      m[last.displayName := last.mid]
  }

  lemma LastWithNameInPrefix(table: seq<ClassEntry>)
    requires |table| > 0
    ensures forall i :: 0 <= i < |table| - 1 ==> table[..|table| - 1][i] == table[i]
    ensures forall i :: 0 <= i < |table| - 1 && IsLastWithName(table, i) ==> IsLastWithName(table[..|table| - 1], i)
  {
  }

  /** With unique display names, every entry's name resolves to its own mid. */
  lemma DisplayToMachineUnique(table: seq<ClassEntry>)
    requires forall i, j :: 0 <= i < j < |table| ==> table[i].displayName != table[j].displayName
    ensures forall i :: 0 <= i < |table| ==> DisplayToMachine(table)[table[i].displayName] == table[i].mid
  {
  }

  /** `[mapping[label] for label in labels]`: each requested display name is looked up in
      order; the first one missing from the mapping raises `KeyError` naming it. */
  function Resolve(mapping: map<string, string>, labels: seq<string>): (r: Result<seq<string>, Exception>)
    ensures r.Success? <==> forall i :: 0 <= i < |labels| ==> labels[i] in mapping
    ensures r.Success? ==> |r.value| == |labels|
    ensures r.Success? ==> forall i :: 0 <= i < |labels| ==> r.value[i] == mapping[labels[i]]
    ensures r.Failure? ==>
              (exists k :: 0 <= k < |labels| && labels[k] !in mapping &&
                 (forall j :: 0 <= j < k ==> labels[j] in mapping) && r.error == KeyError(labels[k]))
  {
    if |labels| == 0 then Success([])
    else if labels[0] !in mapping then Failure(KeyError(labels[0]))
    else
      match Resolve(mapping, labels[1..])
      case Success(ids) => Success([mapping[labels[0]]] + ids)
      case Failure(e) => Failure(e)
  }
}
