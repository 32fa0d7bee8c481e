/** Which name a post goes on the air under, said of the characters of its own name. */
module ObjectNaming {
  import opened PyText
  import opened ObjectNames

  /** The places, in order, of every capital letter and digit. */
  ghost predicate NamePlaces(s: string, places: seq<nat>)
  {
    && (forall j :: 0 <= j < |places| ==> places[j] < |s| && NameChar(s[places[j]]))
    && (forall j, k :: 0 <= j < k < |places| ==> places[j] < places[k])
    && forall i :: 0 <= i < |s| && NameChar(s[i]) ==> i in places
  }

  /** The first nine of those characters, or all when there are fewer, or POST when there is none. */
  ghost predicate FirstNine(s: string, places: seq<nat>, base: string)
    requires NamePlaces(s, places)
  {
    if places == [] then base == "POST"
    else
      && |base| == (if |places| < 9 then |places| else 9)
      && forall j :: 0 <= j < |base| ==> base[j] == s[places[j]]
  }

  ghost predicate IsBase(s: string, base: string)
  {
    exists places :: NamePlaces(s, places) && FirstNine(s, places, base)
  }

  /** The base with a number after it, cut before the number to nine characters in all. */
  predicate Numbered(name: string, base: string, i: nat)
  {
    var k := |name| - |Decimal(i)|;
    && 0 <= k <= |base| && name == base[..k] + Decimal(i)
    && |name| == (if |base| + |Decimal(i)| < 9 then |base| + |Decimal(i)| else 9)
  }

  /** Every name that is the base with a number from 2 up to n is taken. */
  ghost predicate AllTaken(base: string, taken: set<string>, n: nat)
  {
    forall i, name :: 2 <= i < n && Numbered(name, base, i) ==> name in taken
  }

  /** The base when it is free, otherwise the base with the smallest number that makes it free, up to 99. */
  ghost predicate FirstFreeName(base: string, taken: set<string>, name: Option<string>)
  {
    if base !in taken then name == Some(base)
    else if name.None? then AllTaken(base, taken, 100)
    else name.value !in taken && exists i :: 2 <= i < 100 && Numbered(name.value, base, i) && AllTaken(base, taken, i)
  }

  /** The name is made so of the post's own name. */
  ghost predicate NamedAfter(upper: string, taken: set<string>, name: Option<string>)
  {
    exists base :: IsBase(upper, base) && FirstFreeName(base, taken, name)
  }

  lemma {:induction false} KeptSnoc(s: string, c: char)
    ensures OnlyNameChars(s + [c]) == OnlyNameChars(s) + if NameChar(c) then [c] else []
  {
    hide NameChar;
    if s == [] {
      assert s + [c] == [c] && [c][1..] == [];
    } else {
      assert (s + [c])[0] == s[0] && (s + [c])[1..] == s[1..] + [c];
      KeptSnoc(s[1..], c);
    }
  }

  lemma PlacesSnoc(s: string, c: char, places: seq<nat>)
    requires NamePlaces(s, places)
    ensures NamePlaces(s + [c], if NameChar(c) then places + [|s|] else places)
  {
    hide NameChar;
    var all := s + [c];
    var more := if NameChar(c) then places + [|s|] else places;
    forall i | 0 <= i < |all| && NameChar(all[i])
      ensures i in more
    {
      if i < |s| {
        assert s[i] == all[i] && i in places;
      } else {
        assert more[|places|] == i;
      }
    }
  }

  /** The text is made of the characters at the places. */
  predicate ReadAt(s: string, places: seq<nat>, kept: string)
  {
    |kept| == |places| && forall j :: 0 <= j < |places| ==> places[j] < |s| && kept[j] == s[places[j]]
  }

  lemma ReadSnoc(s: string, c: char, places: seq<nat>, kept: string)
    requires ReadAt(s, places, kept)
    ensures ReadAt(s + [c], places, kept) && ReadAt(s + [c], places + [|s|], kept + [c])
  {
  }

  lemma {:induction false} KeptAre(s: string) returns (places: seq<nat>)
    ensures NamePlaces(s, places) && ReadAt(s, places, OnlyNameChars(s))
    decreases |s|
  {
    hide NameChar, OnlyNameChars, NamePlaces, ReadAt;
    places := [];
    if s == [] {
      KeepsNothing();
    } else {
      var init, c := s[..|s| - 1], s[|s| - 1];
      assert s == init + [c];
      places := KeptAre(init);
      var kept := OnlyNameChars(init);
      KeptSnoc(init, c);
      PlacesSnoc(init, c, places);
      ReadSnoc(init, c, places, kept);
      if NameChar(c) {
        places := places + [|init|];
      } else {
        assert kept + [] == kept;
      }
    }
  }

  lemma KeepsNothing()
    ensures OnlyNameChars("") == "" && NamePlaces("", []) && ReadAt("", [], "")
  {
  }

  lemma NumberedIsCandidate(name: string, base: string, i: nat)
    requires 2 <= i < 100 && |base| <= 9
    ensures Numbered(name, base, i) <==> name == Candidate(base, i)
  {
    hide Decimal;
    SmallDecimal(i);
  }

  /** The name of a post is made of the first nine capital letters and digits of its name in upper case, with the
      smallest number that makes it free when it is not. */
  lemma NameIsFirstFree(upper: string, taken: set<string>)
    ensures NamedAfter(upper, taken, ObjectName(upper, taken))
  {
    hide OnlyNameChars, Numbered, Candidate;
    var places := KeptAre(upper);
    var base := BaseName(upper);
    assert FirstNine(upper, places, base);
    forall i, name | 2 <= i < 100
      ensures Numbered(name, base, i) <==> name == Candidate(base, i)
    {
      NumberedIsCandidate(name, base, i);
    }
    var r := ObjectName(upper, taken);
    if base in taken && r.Some? {
      var k: nat :| 2 <= k < 100 && r.value == Candidate(base, k) && r.value !in taken
        && forall j :: 2 <= j < k ==> Candidate(base, j) in taken;
      assert Numbered(r.value, base, k) && AllTaken(base, taken, k);
    }
    assert IsBase(upper, base) && FirstFreeName(base, taken, r);
  }

  /** Each object is named after its own post, free of the names of the posts before it. */
  lemma {:induction false} ObjectsAreNamed(posts: seq<Post>, i: nat)
    requires Desired(posts).Some? && i < |Desired(posts).value| == |Placed(posts)|
    ensures var objects := Desired(posts).value;
      NamedAfter(Placed(posts)[i].upper, Names(objects[..i]), Some(objects[i].name))
    decreases |posts|
  {
    hide ObjectName, NamedAfter, Names;
    var init, last := posts[..|posts| - 1], posts[|posts| - 1];
    var objects, before := Desired(posts).value, Desired(init).value;
    DesiredNamesDistinct(init);
    if last.position.Some? && i == |before| {
      NameIsFirstFree(last.upper, Names(before));
      assert objects[..i] == before;
    } else {
      assert Placed(posts)[i] == Placed(init)[i] && objects[i] == before[i];
      ObjectsAreNamed(init, i);
      assert objects[..i] == before[..i];
    }
  }

  /** Naming fails only at a post whose base is taken with every number up to 99. */
  lemma {:induction false} UnnamedPost(posts: seq<Post>) returns (i: nat)
    requires Desired(posts).None?
    ensures i < |posts| && posts[i].position.Some? && Desired(posts[..i]).Some?
    ensures NamedAfter(posts[i].upper, Names(Desired(posts[..i]).value), None)
    decreases |posts|
  {
    hide ObjectName, NamedAfter, Names;
    i := |posts| - 1;
    var init := posts[..i];
    if Desired(init).None? {
      i := UnnamedPost(init);
      assert init[..i] == posts[..i];
    } else {
      NameIsFirstFree(posts[i].upper, Names(Desired(init).value));
    }
  }
}
