/**
 The list logic of Settings.cpp: the recent-documents list, kept most
 recent first, and the per-element configuration keys. Reading and
 writing the settings store is left out; the list is a parameter.
 */
module Settings {
  import opened Seqs

  /** The longest the recent-documents list may be. */
  const MaxRecent: nat := 20

  /** `pop_back` until at most `MaxRecent` entries remain. */
  function TrimBack(l: seq<string>): (r: seq<string>)
    ensures |r| == (if |l| <= MaxRecent then |l| else MaxRecent) && r == l[..|r|]
    decreases |l|
  {
    if |l| > MaxRecent then TrimBack(l[..|l| - 1]) else l
  }

  /**
   `addToRecentDocuments(name)`: every earlier occurrence of `name` is
   removed, `name` is pushed at the front, and the list is cut back to
   `MaxRecent` entries.
   */
  function AddToRecentDocuments(list: seq<string>, name: string): (r: seq<string>)
    ensures |r| == if |Without(list, name)| + 1 <= MaxRecent then |Without(list, name)| + 1 else MaxRecent
    ensures r[0] == name && name !in r[1..]
    ensures r[1..] == Without(list, name)[..|r| - 1]
  {
    var rest := if name in list then Without(list, name) else list;
    var r := TrimBack([name] + rest);
    assert r == ([name] + rest)[..|r|];
    assert r[1..] == rest[..|r| - 1];
    r
  }

  /** The other entries keep their relative order. */
  lemma RecentKeepsOrder(list: seq<string>, name: string)
    ensures SubseqOf(AddToRecentDocuments(list, name)[1..], list)
  {
    var r := AddToRecentDocuments(list, name);
    SubseqPrefix(Without(list, name), list, |r| - 1);
  }

  /** `name` occurs exactly once. */
  lemma RecentOnce(list: seq<string>, name: string)
    ensures multiset(AddToRecentDocuments(list, name))[name] == 1
  {
    var r := AddToRecentDocuments(list, name);
    assert r == [r[0]] + r[1..];
  }

  /** Opening the same document twice in a row changes nothing the second time. */
  lemma RecentIdempotent(list: seq<string>, name: string)
    ensures var r := AddToRecentDocuments(list, name); AddToRecentDocuments(r, name) == r
  {
    var r := AddToRecentDocuments(list, name);
    assert r == [name] + r[1..];
    assert Without(r, name) == r[1..] by {
      assert forall y :: y in r[1..] ==> y != name;
      WithoutHead(r, name);
    }
  }

  /** Deleting every `x` from `[x] + t` where `t` holds none leaves `t`. */
  lemma WithoutHead(r: seq<string>, x: string)
    requires |r| > 0 && r[0] == x && x !in r[1..]
    ensures Without(r, x) == r[1..]
  {
    assert r == [r[0]] + r[1..];
  }

  datatype ElementType = Node | Edge

  /** `elementKey(configEntry, elem)`: the entry followed by "node" or "edge". */
  function ElementKey(configEntry: string, elem: ElementType): (r: string)
    ensures |r| == |configEntry| + 4 && r[..|configEntry|] == configEntry
    ensures r[|configEntry|..] == (if elem == Node then "node" else "edge")
  {
    configEntry + (if elem == Node then "node" else "edge")
  }

  /** The node key and the edge key of an entry differ. */
  lemma ElementKeysDiffer(configEntry: string)
    ensures ElementKey(configEntry, Node) != ElementKey(configEntry, Edge)
  {
    assert ElementKey(configEntry, Node)[|configEntry|] == 'n';
  }
}
