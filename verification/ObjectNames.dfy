/** APRS object names for event posts: at most nine characters, unique within an event, stable as
    posts are added. */
module ObjectNames {
  import opened PyText

  const NAME_MAX := 9

  predicate NameChar(c: char) { 'A' <= c <= 'Z' || '0' <= c <= '9' }

  /** `re.sub(r"[^A-Z0-9]", "", s)` */
  function OnlyNameChars(s: string): (r: string)
    ensures forall i :: 0 <= i < |r| ==> NameChar(r[i])
  {
    if s == [] then []
    else if NameChar(s[0]) then [s[0]] + OnlyNameChars(s[1..])
    else OnlyNameChars(s[1..])
  }

  predicate ValidName(name: string)
  {
    1 <= |name| <= NAME_MAX && forall i :: 0 <= i < |name| ==> NameChar(name[i])
  }

  function Take(s: string, n: nat): string { if |s| <= n then s else s[..n] }

  /** The name before uniquifying; `upper` is the post's name in upper case. */
  function BaseName(upper: string): (r: string)
    ensures ValidName(r)
  {
    var kept := Take(OnlyNameChars(upper), NAME_MAX);
    if kept == "" then "POST" else kept
  }

  function Candidate(base: string, i: nat): string
    requires 2 <= i < 100
  {
    SmallDecimal(i);
    Take(base, NAME_MAX - |Decimal(i)|) + Decimal(i)
  }

  lemma SmallDecimal(i: nat)
    requires i < 100
    ensures |Decimal(i)| == if i < 10 then 1 else 2
  {
    if i >= 10 {
      assert |Decimal(i / 10)| == 1;
    }
  }

  /** The first free candidate from the i-th on. */
  function FirstFree(base: string, taken: set<string>, i: nat): (r: Option<string>)
    requires 2 <= i <= 100
    ensures r.Some? ==> exists k | i <= k < 100 ::
      r.value == Candidate(base, k) && r.value !in taken && forall j :: i <= j < k ==> Candidate(base, j) in taken
    ensures r.None? <==> forall j :: i <= j < 100 ==> Candidate(base, j) in taken
    decreases 100 - i
  {
    if i == 100 then None
    else if Candidate(base, i) !in taken then Some(Candidate(base, i))
    else FirstFree(base, taken, i + 1)
  }

  /** None is the ValueError of `object_name`. */
  function ObjectName(upper: string, taken: set<string>): Option<string>
  {
    if BaseName(upper) !in taken then Some(BaseName(upper)) else FirstFree(BaseName(upper), taken, 2)
  }

  method FindObjectName(upper: string, taken: set<string>) returns (r: Option<string>)
    ensures r == ObjectName(upper, taken)
  {
    hide Candidate;
    var base := BaseName(upper);
    if base !in taken {
      return Some(base);
    }
    for i := 2 to 100
      invariant FirstFree(base, taken, 2) == FirstFree(base, taken, i)
    {
      var candidate := Candidate(base, i);
      if candidate !in taken {
        return Some(candidate);
      }
    }
    r := None;
  }

  lemma CandidateIsValid(base: string, i: nat)
    requires ValidName(base) && 2 <= i < 100
    ensures ValidName(Candidate(base, i))
  {
    hide Decimal;
    SmallDecimal(i);
    var suffix := Decimal(i);
    assert forall k :: 0 <= k < |suffix| ==> suffix[k] in suffix && IsDigit(suffix[k]);
  }

  /** A name is 1 to 9 characters of [A-Z0-9] and is not taken. */
  lemma ObjectNameIsValid(upper: string, taken: set<string>)
    ensures ObjectName(upper, taken).Some? ==>
      ValidName(ObjectName(upper, taken).value) && ObjectName(upper, taken).value !in taken
  {
    hide Candidate, ValidName, BaseName;
    var base := BaseName(upper);
    if base in taken && FirstFree(base, taken, 2).Some? {
      var k: nat :| 2 <= k < 100 && FirstFree(base, taken, 2).value == Candidate(base, k);
      CandidateIsValid(base, k);
    }
  }

  lemma TwoDigitCandidatesDiffer(base: string, i: nat, j: nat)
    requires 10 <= i < 100 && 10 <= j < 100 && Candidate(base, i) == Candidate(base, j)
    ensures i == j
  {
    hide Decimal;
    SmallDecimal(i);
    SmallDecimal(j);
    var stem := Take(base, NAME_MAX - 2);
    assert Candidate(base, i)[|stem|..] == Decimal(i);
    assert Candidate(base, j)[|stem|..] == Decimal(j);
    DecimalRoundTrip(i);
    DecimalRoundTrip(j);
  }

  lemma {:induction false} ManyCandidates(base: string, n: nat, taken: set<string>)
    requires 10 <= n <= 100 && forall i :: 10 <= i < n ==> Candidate(base, i) in taken
    ensures |taken| >= n - 10
    decreases n
  {
    hide Candidate;
    if n > 10 {
      var last := Candidate(base, n - 1);
      forall i | 10 <= i < n - 1
        ensures Candidate(base, i) in taken - {last}
      {
        if Candidate(base, i) == last {
          TwoDigitCandidatesDiffer(base, i, n - 1);
        }
      }
      ManyCandidates(base, n - 1, taken - {last});
    }
  }

  /** With at most 89 names taken there is always a free one. */
  lemma NamesSuffice(upper: string, taken: set<string>)
    requires |taken| <= 89
    ensures ObjectName(upper, taken).Some?
  {
    hide Candidate;
    if ObjectName(upper, taken).None? {
      ManyCandidates(BaseName(upper), 100, taken);
    }
  }

  // ---------------------------------------------------------------------------
  // All the posts of an event

  type Position = (real, real)

  /** A post with its name in upper case and its coordinates, if it has both. */
  datatype Post = Post(id: int, upper: string, position: Option<Position>)

  datatype Object = Object(name: string, position: Position, postId: int)

  function Names(objects: seq<Object>): (r: set<string>)
    ensures forall i :: 0 <= i < |objects| ==> objects[i].name in r
    ensures forall n :: n in r ==> exists i :: 0 <= i < |objects| && objects[i].name == n
  {
    if objects == [] then {}
    else
      var init := objects[..|objects| - 1];
      assert forall i :: 0 <= i < |init| ==> init[i] == objects[i];
      Names(init) + {objects[|objects| - 1].name}
  }

  /** The objects of posts given in the order of their ids; None when some post cannot be named. */
  function Desired(posts: seq<Post>): (r: Option<seq<Object>>)
  {
    if posts == [] then Some([])
    else
      var last := posts[|posts| - 1];
      match Desired(posts[..|posts| - 1])
      case None => None
      case Some(objects) =>
        if last.position.None? then Some(objects)
        else match ObjectName(last.upper, Names(objects))
          case None => None
          case Some(name) => Some(objects + [Object(name, last.position.value, last.id)])
  }

  method DesiredObjects(posts: seq<Post>, onAir: bool) returns (r: Option<seq<Object>>)
    ensures r == if onAir then Desired(posts) else Some([])
  {
    hide ObjectName;
    var desired: seq<Object> := [];
    if !onAir {
      return Some([]);
    }
    for i := 0 to |posts|
      invariant Desired(posts[..i]) == Some(desired)
    {
      assert posts[..i + 1][..i] == posts[..i];
      if posts[i].position.None? {
        continue;
      }
      var name := FindObjectName(posts[i].upper, Names(desired));
      if name.None? {
        DesiredFails(posts, i + 1);
        return None;
      }
      desired := desired + [Object(name.value, posts[i].position.value, posts[i].id)];
    }
    assert posts[..|posts|] == posts;
    r := Some(desired);
  }

  lemma {:induction false} DesiredFails(posts: seq<Post>, n: nat)
    requires n <= |posts| && Desired(posts[..n]) == None
    ensures Desired(posts) == None
    decreases |posts| - n
  {
    hide ObjectName;
    if n == |posts| {
      assert posts[..n] == posts;
    } else {
      assert posts[..n + 1][..n] == posts[..n];
      DesiredFails(posts, n + 1);
    }
  }

  predicate DistinctNames(objects: seq<Object>)
  {
    forall i, j :: 0 <= i < j < |objects| ==> objects[i].name != objects[j].name
  }

  function Placed(posts: seq<Post>): seq<Post>
  {
    if posts == [] then []
    else Placed(posts[..|posts| - 1])
         + if posts[|posts| - 1].position.Some? then [posts[|posts| - 1]] else []
  }

  /** One object per post with coordinates, in order, each where its post is; names valid and distinct. */
  lemma {:induction false} DesiredNamesDistinct(posts: seq<Post>)
    requires Desired(posts).Some?
    ensures var objects := Desired(posts).value;
      && DistinctNames(objects) && (forall i :: 0 <= i < |objects| ==> ValidName(objects[i].name))
      && |objects| == |Placed(posts)|
      && forall i :: 0 <= i < |objects| ==>
           objects[i].postId == Placed(posts)[i].id && Some(objects[i].position) == Placed(posts)[i].position
    decreases |posts|
  {
    hide ObjectName, ValidName, Names;
    if posts != [] {
      var last := posts[|posts| - 1];
      DesiredNamesDistinct(posts[..|posts| - 1]);
      var objects := Desired(posts[..|posts| - 1]).value;
      ObjectNameIsValid(last.upper, Names(objects));
      if last.position.Some? {
        var name := ObjectName(last.upper, Names(objects)).value;
        assert Desired(posts).value == objects + [Object(name, last.position.value, last.id)];
        assert forall i :: 0 <= i < |objects| ==> objects[i].name != name;
      }
    }
  }

  /** Posts with later ids never rename the objects of earlier ones. */
  lemma {:induction false} LaterPostsRenameNothing(posts: seq<Post>, more: seq<Post>)
    requires Desired(posts + more).Some?
    ensures Desired(posts).Some? && Desired(posts).value <= Desired(posts + more).value
    decreases |more|
  {
    hide ObjectName;
    if more == [] {
      assert posts + more == posts;
    } else {
      var init := more[..|more| - 1];
      assert (posts + more)[..|posts + more| - 1] == posts + init;
      LaterPostsRenameNothing(posts, init);
    }
  }

  lemma {:induction false} NamesAreFew(objects: seq<Object>)
    ensures |Names(objects)| <= |objects|
  {
    if objects != [] {
      var init, last := objects[..|objects| - 1], objects[|objects| - 1];
      NamesAreFew(init);
    }
  }

  /** Up to 90 posts with coordinates can always be named. */
  lemma {:induction false} NinetyPostsAreNamed(posts: seq<Post>)
    requires |Placed(posts)| <= 90
    ensures Desired(posts).Some?
    decreases |posts|
  {
    hide ObjectName, ValidName;
    if posts != [] {
      var init, last := posts[..|posts| - 1], posts[|posts| - 1];
      NinetyPostsAreNamed(init);
      if last.position.Some? {
        var objects := Desired(init).value;
        DesiredNamesDistinct(init);
        NamesAreFew(objects);
        NamesSuffice(last.upper, Names(objects));
      }
    }
  }
}
