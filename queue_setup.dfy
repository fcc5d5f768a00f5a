/**
  Queue plumbing after selection (src/main.rs): the queue create infos for the
  logical device and the de-duplicated, sorted queue-family index list that the
  swapchain is created with.
 */
module QueueSetup {

  /** Strictly increasing: sorted with no repeats. */
  predicate StrictlyIncreasing(s: seq<nat>)
  {
    forall i, j :: 0 <= i < j < |s| ==> s[i] < s[j]
  }

  /** Insert `x` into a strictly increasing sequence, as a BTreeSet insertion does. */
  function InsertSorted(s: seq<nat>, x: nat): (r: seq<nat>)
    requires StrictlyIncreasing(s)
    ensures StrictlyIncreasing(r)
    ensures forall y :: y in r <==> y in s || y == x
    ensures |r| == if x in s then |s| else |s| + 1
  {
    if |s| == 0 then [x]
    else if x < s[0] then [x] + s
    else if x == s[0] then s
    else
      var t := InsertSorted(s[1..], x);
      assert forall y :: y in s[1..] ==> s[0] < y;
      assert StrictlyIncreasing([s[0]] + t) by {
        forall i, j | 0 <= i < j < |t| + 1
          ensures ([s[0]] + t)[i] < ([s[0]] + t)[j]
        {
          if i == 0 {
            assert ([s[0]] + t)[j] == t[j - 1] && t[j - 1] in t;
          }
        }
      }
      [s[0]] + t
  }

  /** `iter().collect::<BTreeSet<_>>().into_iter().collect::<Vec<_>>()`. */
  function CollectSorted(xs: seq<nat>): (r: seq<nat>)
    ensures StrictlyIncreasing(r)
    ensures forall y :: y in r <==> y in xs
  {
    if |xs| == 0 then []
    else InsertSorted(CollectSorted(xs[..|xs| - 1]), xs[|xs| - 1])
  }

  /** The swapchain's queue-family index list: {graphics, presentation}, sorted and unique. */
  function UniqueQueueFamilyIndices(graphics: nat, presentation: nat): (r: seq<nat>)
    ensures StrictlyIncreasing(r)
    ensures forall y :: y in r <==> y == graphics || y == presentation
    ensures |r| == if graphics == presentation then 1 else 2
  {
    var xs := [graphics, presentation];
    assert xs[..1] == [graphics] && CollectSorted(xs[..1]) == [graphics];
    CollectSorted(xs)
  }

  /** The split pair (0, 1) gives the list [0, 1]; equal indices give a one-element list. */
  lemma UniqueIndicesExamples(i: nat)
    ensures UniqueQueueFamilyIndices(0, 1) == [0, 1]
    ensures UniqueQueueFamilyIndices(1, 0) == [0, 1]
    ensures UniqueQueueFamilyIndices(i, i) == [i]
  {
  }

  /** VkDeviceQueueCreateInfo: one queue of the given family. */
  datatype QueueCreateInfo = QueueCreateInfo(queueFamilyIndex: nat, queueCount: nat)

  /** The families a list of queue create infos asks queues of. */
  function Families(infos: seq<QueueCreateInfo>): set<nat>
  {
    set i | 0 <= i < |infos| :: infos[i].queueFamilyIndex
  }

  /** The logical device's queue create infos: one per distinct family, one queue each. */
  function QueueCreateInfos(graphics: nat, presentation: nat): (r: seq<QueueCreateInfo>)
    ensures |r| == if graphics == presentation then 1 else 2
    ensures r[0].queueFamilyIndex == graphics
    ensures forall i :: 0 <= i < |r| ==> r[i].queueCount == 1
    ensures Families(r) == {graphics, presentation}
  {
    var r := if graphics != presentation then
      [QueueCreateInfo(graphics, 1), QueueCreateInfo(presentation, 1)]
    else
      [QueueCreateInfo(graphics, 1)];
    assert r[0].queueFamilyIndex in Families(r) && r[|r| - 1].queueFamilyIndex in Families(r);
    r
  }

  /**
    The device is created with exactly the families the swapchain shares its
    images between: one create info per entry of the index list.
   */
  lemma QueueCreateInfosMatchIndexList(graphics: nat, presentation: nat)
    ensures var infos := QueueCreateInfos(graphics, presentation);
      var indices := UniqueQueueFamilyIndices(graphics, presentation);
      && |infos| == |indices|
      && Families(infos) == set y | y in indices
  {
  }
}
