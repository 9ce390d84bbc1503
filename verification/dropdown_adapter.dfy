/**
 * The dropdown list adapter: the `DiffUtil.ItemCallback` that decides whether
 * two result records are the same row and whether that row must be redrawn,
 * and the text shown on a row.
 */
module DropdownAdapter {
  import opened Wrappers
  import opened Records

  /** A subset of a finite set with as many elements is the whole set. */
  lemma {:induction false} SubsetOfSameSize<T>(a: set<T>, b: set<T>)
    requires a <= b && |a| == |b|
    ensures a == b
  {
    if x :| x in b && x !in a {
      assert a <= b - {x};
      assert |b - {x}| == |b| - 1;
      SubsetCardinality(a, b - {x});
      assert false;
    }
  }

  lemma SubsetCardinality<T>(a: set<T>, b: set<T>)
    requires a <= b
    ensures |a| <= |b|
  {
    assert b == a + (b - a);
  }

  /** `areItemsTheSame`: both records give the display field the same value,
      where a missing field reads as null. */
  function AreItemsTheSame<V(==)>(oldItem: Record<V>, newItem: Record<V>, displayField: string): (same: bool)
    ensures displayField !in oldItem && displayField !in newItem ==> same
    ensures displayField in oldItem && displayField in newItem ==>
              (same <==> oldItem[displayField] == newItem[displayField])
    ensures (displayField in oldItem) != (displayField in newItem) ==> !same
  {
    Get(oldItem, displayField) == Get(newItem, displayField)
  }

  /** `areContentsTheSame`: equal sizes, and every key of the old record maps to
      an equal value in the new one (a missing key reads as null, which never
      equals a value). Together these make it map equality. */
  function AreContentsTheSame<V(==)>(oldItem: Record<V>, newItem: Record<V>): (same: bool)
    ensures same <==> oldItem == newItem
    ensures |oldItem| != |newItem| ==> !same
  {
    var result := |oldItem| == |newItem|
      && forall key :: key in oldItem ==> Get(newItem, key) == Some(oldItem[key]);
    if result then
      assert oldItem.Keys <= newItem.Keys;
      SubsetOfSameSize(oldItem.Keys, newItem.Keys);
      result
    else
      result
  }

  /** The text of a row: the display field's `toString()`, or "" when absent. */
  function Label<V>(item: Record<V>, displayField: string, show: V -> string): (text: string)
    ensures displayField in item ==> text == show(item[displayField])
    ensures displayField !in item ==> text == ""
  {
    match Get(item, displayField)
    case Some(v) => show(v)
    case None => ""
  }

  /** `areItemsTheSame` is an equivalence: reflexive, symmetric, transitive. */
  lemma ItemsTheSameIsEquivalence<V>(a: Record<V>, b: Record<V>, c: Record<V>, displayField: string)
    ensures AreItemsTheSame(a, a, displayField)
    ensures AreItemsTheSame(a, b, displayField) == AreItemsTheSame(b, a, displayField)
    ensures AreItemsTheSame(a, b, displayField) && AreItemsTheSame(b, c, displayField)
            ==> AreItemsTheSame(a, c, displayField)
  {
  }

  /** `areItemsTheSame` looks at the display field only: changing or removing
      any other field of either record never changes the answer. */
  lemma ItemsTheSameIgnoresOtherFields<V>(a: Record<V>, b: Record<V>, displayField: string, key: string, v: V)
    requires key != displayField
    ensures AreItemsTheSame(a[key := v], b, displayField) == AreItemsTheSame(a, b, displayField)
    ensures AreItemsTheSame(a - {key}, b, displayField) == AreItemsTheSame(a, b, displayField)
  {
  }

  /** `areContentsTheSame` is reflexive and symmetric. */
  lemma ContentsTheSameReflexiveSymmetric<V>(a: Record<V>, b: Record<V>)
    ensures AreContentsTheSame(a, a)
    ensures AreContentsTheSame(a, b) == AreContentsTheSame(b, a)
  {
  }

  /** Equal contents mean the same item, and then the same row text. */
  lemma ContentsTheSameImpliesItemsTheSame<V>(a: Record<V>, b: Record<V>, displayField: string, show: V -> string)
    requires AreContentsTheSame(a, b)
    ensures AreItemsTheSame(a, b, displayField)
    ensures Label(a, displayField, show) == Label(b, displayField, show)
  {
  }

  /** Records that are the same item show the same row text. */
  lemma SameItemSameLabel<V>(a: Record<V>, b: Record<V>, displayField: string, show: V -> string)
    requires AreItemsTheSame(a, b, displayField)
    ensures Label(a, displayField, show) == Label(b, displayField, show)
  {
  }

  /** The same item need not have the same contents: a row keeps its identity
      while its other fields change. */
  lemma ItemsTheSameDoesNotImplyContents()
    ensures AreItemsTheSame(map["name" := 1, "id" := 1], map["name" := 1, "id" := 2], "name")
    ensures !AreContentsTheSame(map["name" := 1, "id" := 1], map["name" := 1, "id" := 2])
  {
    assert map["name" := 1, "id" := 1]["id"] != map["name" := 1, "id" := 2]["id"];
  }
}
