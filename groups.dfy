/**
  The two groups of screenshots ("Coin A" and "Coin B"): each group's
  username set is accumulated image by image with `update`, and the
  reconciliation is the intersection of the two sets.
 */
module Groups {
  import opened Wrappers
  import opened Text
  import opened Handles
  import opened Extraction

  /** The usernames of one group: the union of the extractions of its images,
      in upload order. */
  function GroupUsernames(images: seq<Option<string>>): (r: set<string>)
    ensures forall u :: u in r ==> IsUsername(u)
  {
    if images == [] then {}
    else GroupUsernames(images[..|images| - 1]) + UsernamesOf(images[|images| - 1])
  }

  /** The `for image_file in images: usernames.update(extract_usernames(img))`
      loop of one group. */
  method CollectGroup(images: seq<Option<string>>) returns (usernames: set<string>)
    ensures usernames == GroupUsernames(images)
  {
    usernames := {};
    for k := 0 to |images|
      invariant usernames == GroupUsernames(images[..k])
    {
      var found := ExtractUsernames(images[k]);
      assert images[..k + 1][..k] == images[..k];
      usernames := usernames + found;
    }
    assert images[..|images|] == images;
  }

  /** A username belongs to a group exactly when some image of the group
      yields it. */
  lemma {:induction false} GroupMembership(images: seq<Option<string>>, u: string)
    ensures u in GroupUsernames(images) <==> exists k :: 0 <= k < |images| && u in UsernamesOf(images[k])
  {
    if images != [] {
      var init := images[..|images| - 1];
      GroupMembership(init, u);
      if u in GroupUsernames(init) {
        var k :| 0 <= k < |init| && u in UsernamesOf(init[k]);
        assert images[k] == init[k];
      }
      if exists k :: 0 <= k < |images| && u in UsernamesOf(images[k]) {
        var k :| 0 <= k < |images| && u in UsernamesOf(images[k]);
        if k < |init| {
          assert init[k] == images[k];
        }
      }
    }
  }

  /** Which images a group holds is all that matters: reordering the uploads
      or uploading one twice yields the same set. */
  lemma GroupOrderIndependent(a: seq<Option<string>>, b: seq<Option<string>>)
    requires forall img :: img in a <==> img in b
    ensures GroupUsernames(a) == GroupUsernames(b)
  {
    forall u | u in GroupUsernames(a) ensures u in GroupUsernames(b) {
      GroupMembership(a, u);
      GroupMembership(b, u);
      var k :| 0 <= k < |a| && u in UsernamesOf(a[k]);
      assert a[k] in b;
    }
    forall u | u in GroupUsernames(b) ensures u in GroupUsernames(a) {
      GroupMembership(a, u);
      GroupMembership(b, u);
      var k :| 0 <= k < |b| && u in UsernamesOf(b[k]);
      assert b[k] in a;
    }
  }

  /** A permutation of the uploads yields the same set. */
  lemma GroupPermutation(a: seq<Option<string>>, b: seq<Option<string>>)
    requires multiset(a) == multiset(b)
    ensures GroupUsernames(a) == GroupUsernames(b)
  {
    forall img ensures img in a <==> img in b {
      assert img in a <==> img in multiset(a);
      assert img in b <==> img in multiset(b);
    }
    GroupOrderIndependent(a, b);
  }

  lemma {:induction false} GroupAppend(a: seq<Option<string>>, b: seq<Option<string>>)
    ensures GroupUsernames(a + b) == GroupUsernames(a) + GroupUsernames(b)
    decreases |b|
  {
    if b == [] {
      assert a + b == a;
    } else {
      var init := b[..|b| - 1];
      assert (a + b)[..|a + b| - 1] == a + init;
      GroupAppend(a, init);
    }
  }

  /** An image whose OCR failed contributes nothing, and the images after it
      are still taken into account. */
  lemma FailedImageSkipped(a: seq<Option<string>>, b: seq<Option<string>>)
    ensures GroupUsernames(a + [None] + b) == GroupUsernames(a) + GroupUsernames(b)
  {
    GroupAppend(a + [None], b);
    var failed: seq<Option<string>> := [None];
    GroupAppend(a, failed);
    assert failed[..0] == [];
  }

  /** The group set only grows as images are processed. */
  lemma {:induction false} GroupGrows(images: seq<Option<string>>, m: nat, n: nat)
    requires m <= n <= |images|
    ensures GroupUsernames(images[..m]) <= GroupUsernames(images[..n])
    decreases n - m
  {
    if m < n {
      assert images[..n][..n - 1] == images[..n - 1];
      assert GroupUsernames(images[..n]) == GroupUsernames(images[..n - 1]) + UsernamesOf(images[n - 1]);
      GroupGrows(images, m, n - 1);
    }
  }

  /** `usernames_a.intersection(usernames_b)` */
  function Overlap(a: set<string>, b: set<string>): (r: set<string>)
    ensures r <= a && r <= b
  {
    a * b
  }

  /** The overlap holds exactly the usernames present in both groups. */
  lemma OverlapExact(a: set<string>, b: set<string>, u: string)
    ensures u in Overlap(a, b) <==> u in a && u in b
  {
  }

  /** The overlap does not depend on which group is A and which is B. */
  lemma OverlapSymmetric(a: set<string>, b: set<string>)
    ensures Overlap(a, b) == Overlap(b, a)
  {
  }

  /** `u` is written as the word `"@" + u` in the OCR text of some image. */
  ghost predicate SeenIn(images: seq<Option<string>>, u: string)
  {
    exists k :: 0 <= k < |images| && images[k].Some? && "@" + u in Words(images[k].value)
  }

  /** End to end: a username is reported as overlapping exactly when it is a
      username and is written as a word `"@" + u` in some screenshot of each
      group. */
  lemma OverlapOfGroups(imagesA: seq<Option<string>>, imagesB: seq<Option<string>>, u: string)
    ensures u in Overlap(GroupUsernames(imagesA), GroupUsernames(imagesB))
        <==> IsUsername(u) && SeenIn(imagesA, u) && SeenIn(imagesB, u)
  {
    SeenInGroup(imagesA, u);
    SeenInGroup(imagesB, u);
  }

  lemma SeenInGroup(images: seq<Option<string>>, u: string)
    ensures u in GroupUsernames(images) <==> IsUsername(u) && SeenIn(images, u)
  {
    GroupMembership(images, u);
    if u in GroupUsernames(images) {
      var k :| 0 <= k < |images| && u in UsernamesOf(images[k]);
      assert images[k].Some?;
      ExtractedMembership(images[k].value, u);
    }
    if IsUsername(u) && SeenIn(images, u) {
      var k :| 0 <= k < |images| && images[k].Some? && "@" + u in Words(images[k].value);
      ExtractedMembership(images[k].value, u);
      assert u in UsernamesOf(images[k]);
    }
  }
}
