/**
 How well a wheel fits the target (models/wheel.py): the scan of the supported
 tags and the dictionary lookup that replaces it.
 */
module Wheels {
  import opened Basics

  type Tag = string

  /** The first index of a supported tag the wheel has; None stands for ValueError. */
  function SupportIndexMin(fileTags: set<Tag>, tags: seq<Tag>): (r: Option<nat>)
    ensures r.Some? ==> r.value < |tags| && tags[r.value] in fileTags && forall j :: 0 <= j < r.value ==> tags[j] !in fileTags
    ensures r.None? ==> forall j :: 0 <= j < |tags| ==> tags[j] !in fileTags
  {
    if tags == [] then None
    else if tags[0] in fileTags then Some(0)
    else
      match SupportIndexMin(fileTags, tags[1..])
      case Some(i) => Some(i + 1)
      case None => None
  }

  /** `{tag: idx for idx, tag in enumerate(tags)}`: a later index overwrites an earlier one. */
  function Preferences(tags: seq<Tag>): (r: map<Tag, nat>)
    ensures forall t :: t in r <==> t in tags
    ensures forall t :: t in r ==> r[t] < |tags| && tags[r[t]] == t
    ensures forall t, j :: t in r && r[t] < j < |tags| ==> tags[j] != t
  {
    if tags == [] then map[]
    else
      var n := |tags| - 1;
      var r := Preferences(tags[..n]);
      assert tags == tags[..n] + [tags[n]];
      r[tags[n] := n]
  }

  function Priorities(fileTags: set<Tag>, priority: map<Tag, nat>): set<nat> {
    set t | t in fileTags && t in priority :: priority[t]
  }

  predicate Leq(a: nat, b: nat) { a <= b }

  /** `min(...)` over the wheel's tags that have a priority; None stands for ValueError. */
  function FindMostPreferredTag(fileTags: set<Tag>, priority: map<Tag, nat>): (r: Option<nat>)
    ensures r.None? <==> Priorities(fileTags, priority) == {}
    ensures r.Some? ==> IsLeast(Leq, r.value, Priorities(fileTags, priority))
  {
    var s := Priorities(fileTags, priority);
    if s == {} then None
    else
      HasLeast(Leq, s);
      var m :| IsLeast(Leq, m, s);
      Some(m)
  }

  predicate Supported(fileTags: set<Tag>, tags: seq<Tag>) {
    exists t :: t in fileTags && t in tags
  }

  predicate NoDuplicates(tags: seq<Tag>) {
    forall i, j :: 0 <= i < j < |tags| ==> tags[i] != tags[j]
  }

  /** Both raise exactly when the wheel is not supported. */
  lemma RaiseUnlessSupported(fileTags: set<Tag>, tags: seq<Tag>)
    ensures SupportIndexMin(fileTags, tags).None? <==> !Supported(fileTags, tags)
    ensures FindMostPreferredTag(fileTags, Preferences(tags)).None? <==> !Supported(fileTags, tags)
  {
    var r := SupportIndexMin(fileTags, tags);
    if r.Some? {
      assert tags[r.value] in fileTags && tags[r.value] in tags;
    }
    if Supported(fileTags, tags) {
      var t :| t in fileTags && t in tags;
      assert Preferences(tags)[t] in Priorities(fileTags, Preferences(tags));
    }
  }

  lemma ScanIsLookup(fileTags: set<Tag>, tags: seq<Tag>)
    requires NoDuplicates(tags)
    ensures SupportIndexMin(fileTags, tags) == FindMostPreferredTag(fileTags, Preferences(tags))
  {
    RaiseUnlessSupported(fileTags, tags);
    var scan, fast := SupportIndexMin(fileTags, tags), FindMostPreferredTag(fileTags, Preferences(tags));
    if scan.Some? {
      ScanIsLeast(fileTags, tags, scan.value);
      HasLeast(Leq, Priorities(fileTags, Preferences(tags)));
    }
  }

  lemma ScanIsLeast(fileTags: set<Tag>, tags: seq<Tag>, i: nat)
    requires NoDuplicates(tags) && SupportIndexMin(fileTags, tags) == Some(i)
    ensures IsLeast(Leq, i, Priorities(fileTags, Preferences(tags)))
  {
    var priority := Preferences(tags);
    assert tags[i] in tags;
    assert priority[tags[i]] == i;
    forall x | x in Priorities(fileTags, priority) ensures i <= x {
      var t :| t in fileTags && t in priority && priority[t] == x;
      assert tags[x] == t;
    }
  }

  lemma OneTag(t: Tag, tags: seq<Tag>)
    requires t in tags
    ensures FindMostPreferredTag({t}, Preferences(tags)) == Some(Preferences(tags)[t])
  {
    var priority := Preferences(tags);
    assert Priorities({t}, priority) == {priority[t]};
  }

  lemma DuplicateDiffers(tags: seq<Tag>, i: nat, j: nat)
    requires i < j < |tags| && tags[i] == tags[j]
    ensures SupportIndexMin({tags[i]}, tags) != FindMostPreferredTag({tags[i]}, Preferences(tags))
  {
    var t, priority := tags[i], Preferences(tags);
    OneTag(t, tags);
    assert j <= priority[t];
    var scan := SupportIndexMin({t}, tags);
    assert scan.Some? && scan.value <= i;
  }

  /** The lookup agrees with the scan for every wheel exactly when no tag is listed twice. */
  lemma LookupExact(tags: seq<Tag>)
    ensures (forall fileTags :: SupportIndexMin(fileTags, tags) == FindMostPreferredTag(fileTags, Preferences(tags)))
       <==> NoDuplicates(tags)
  {
    if NoDuplicates(tags) {
      forall fileTags ensures SupportIndexMin(fileTags, tags) == FindMostPreferredTag(fileTags, Preferences(tags)) {
        ScanIsLookup(fileTags, tags);
      }
    } else {
      var i, j :| 0 <= i < j < |tags| && tags[i] == tags[j];
      DuplicateDiffers(tags, i, j);
    }
  }
}
