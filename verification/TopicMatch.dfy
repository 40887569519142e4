/** isTopicMatched of MQTTClient.c, and what it decides in the terms of section 4.7.1 of MQTT 3.1.1. */
module TopicMatch {
  // What the pointer walk decides

  /** The first position of a separator, or the length. */
  function LevelEnd(s: string): (k: nat)
    ensures k <= |s| && (k < |s| ==> s[k] == '/') && forall i :: 0 <= i < k ==> s[i] != '/'
  {
    if s == "" || s[0] == '/' then 0 else 1 + LevelEnd(s[1..])
  }

  /**
   '+' takes a non-empty rest of a level, '#' a non-empty rest of the topic that does not start with '/' and is
   itself last.
   */
  predicate Matches(filter: string, topic: string)
    decreases |filter|
  {
    if filter == "" then topic == ""
    else if topic == "" then false
    else if filter[0] == '+' then topic[0] != '/' && Matches(filter[1..], topic[LevelEnd(topic)..])
    else if filter[0] == '#' then topic[0] != '/' && filter[1..] == ""
    else filter[0] == topic[0] && Matches(filter[1..], topic[1..])
  }

  /** isTopicMatched, with the two pointers as positions. */
  method IsTopicMatched(topicFilter: string, topicName: string) returns (matched: bool)
    ensures matched == Matches(topicFilter, topicName)
  {
    var curf, curn, end := 0, 0, |topicName|;
    while curf < |topicFilter| && curn < end
      invariant curf <= |topicFilter| && curn <= end
      invariant Matches(topicFilter, topicName) == Matches(topicFilter[curf..], topicName[curn..])
      decreases |topicFilter| - curf
    {
      ghost var f, n := topicFilter[curf..], topicName[curn..];
      if topicName[curn] == '/' && topicFilter[curf] != '/' {
        break;
      }
      if topicFilter[curf] != '+' && topicFilter[curf] != '#' && topicFilter[curf] != topicName[curn] {
        break;
      }
      ghost var was := curn;
      if topicFilter[curf] == '+' {
        var nextpos := curn + 1;
        while nextpos < end && topicName[nextpos] != '/'
          invariant was <= curn < end && nextpos == curn + 1
          invariant forall i :: was <= i < nextpos ==> topicName[i] != '/'
        {
          curn := curn + 1;
          nextpos := curn + 1;
        }
        LevelEndIs(n, nextpos - was);
        assert n[nextpos - was..] == topicName[nextpos..];
      } else if topicFilter[curf] == '#' {
        curn := end - 1;
        assert topicName[end..] == "";
      } else {
        assert n[1..] == topicName[was + 1..];
      }
      assert f[1..] == topicFilter[curf + 1..];
      curf := curf + 1;
      curn := curn + 1;
    }
    matched := curn == end && curf == |topicFilter|;
  }

  lemma LevelEndIs(s: string, k: nat)
    requires k <= |s| && (k < |s| ==> s[k] == '/') && forall i :: 0 <= i < k ==> s[i] != '/'
    ensures LevelEnd(s) == k
  {
  }

  // Levels

  /** The levels of a topic or filter: one more than it has separators. */
  function Levels(s: string): (r: seq<string>)
    ensures |r| > 0
    decreases |s|
  {
    var k := LevelEnd(s);
    if k == |s| then [s] else [s[..k]] + Levels(s[k + 1..])
  }

  predicate Plain(level: string) {
    '+' !in level && '#' !in level
  }

  /** Wildcards occupy whole levels, and '#' the last one. */
  predicate WellFormed(filter: seq<string>) {
    forall i :: 0 <= i < |filter| ==> filter[i] == "+" || (filter[i] == "#" && i == |filter| - 1) || Plain(filter[i])
  }

  /** Section 4.7.1: '+' matches any one level, '#' the parent level and any number of levels below it. */
  predicate SpecMatches(filter: seq<string>, topic: seq<string>) {
    if filter == [] then topic == []
    else if filter[0] == "#" then true
    else topic != [] && (filter[0] == "+" || filter[0] == topic[0]) && SpecMatches(filter[1..], topic[1..])
  }

  /** The same, except that '+' wants a level with a character in it, and '#' a further level with a character in it. */
  predicate StrictMatches(filter: seq<string>, topic: seq<string>) {
    if filter == [] then topic == []
    else if topic == [] then false
    else if filter[0] == "#" then topic[0] != ""
    else (if filter[0] == "+" then topic[0] != "" else filter[0] == topic[0]) && StrictMatches(filter[1..], topic[1..])
  }

  /** A plain level matches itself only. */
  lemma {:induction false} MatchesPlain(level: string, filter: string, topic: string)
    requires Plain(level) && '/' !in level
    ensures Matches(level + filter, topic) <==> level <= topic && Matches(filter, topic[|level|..])
  {
    if level == "" {
      assert level + filter == filter && topic[0..] == topic;
    } else {
      var s := level + filter;
      assert s[1..] == level[1..] + filter && s[0] == level[0];
      assert level[0] in level && forall c :: c in level[1..] ==> c in level;
      if topic != "" && topic[0] == level[0] {
        MatchesPlain(level[1..], filter, topic[1..]);
        assert level <= topic <==> level[1..] <= topic[1..];
        if level <= topic {
          assert topic[1..][|level| - 1..] == topic[|level|..];
        }
      }
    }
  }

  /** What is left of a filter after one of its levels: nothing, or a separator and the next levels. */
  lemma MatchesSeparator(filter: string, topic: string)
    requires filter != "" && filter[0] == '/'
    ensures Matches(filter, topic) <==> topic != "" && topic[0] == '/' && Matches(filter[1..], topic[1..])
  {
  }

  lemma LevelsOfRest(s: string)
    ensures Levels(s)[0] == s[..LevelEnd(s)]
    ensures if LevelEnd(s) == |s| then Levels(s)[1..] == []
            else s[LevelEnd(s)..][1..] == s[LevelEnd(s) + 1..] && Levels(s)[1..] == Levels(s[LevelEnd(s) + 1..])
  {
  }

  lemma MatchesWildcards(rest: string, topic: string)
    ensures Matches("+" + rest, topic) <==> topic != "" && topic[0] != '/' && Matches(rest, topic[LevelEnd(topic)..])
    ensures Matches("#", topic) <==> topic != "" && topic[0] != '/'
  {
  }

  lemma FirstLevelEmpty(s: string)
    ensures Levels(s)[0] == "" <==> s == "" || s[0] == '/'
  {
  }

  /** A plain level that only starts the topic's level is no match. */
  lemma LongerLevel(filter: string, topic: string, k: nat)
    requires k < LevelEnd(topic) && (filter == "" || filter[0] == '/')
    ensures !Matches(filter, topic[k..])
  {
  }

  /** The levels after the first, once the first ones match. */
  lemma {:induction false} AfterLevel(filter: string, topic: string)
    requires WellFormed(Levels(filter))
    ensures Matches(filter[LevelEnd(filter)..], topic[LevelEnd(topic)..]) <==>
            StrictMatches(Levels(filter)[1..], Levels(topic)[1..])
    decreases |filter|, 0
  {
    hide Matches, Levels, LevelEnd, WellFormed;
    var k, e := LevelEnd(filter), LevelEnd(topic);
    LevelsOfRest(filter);
    LevelsOfRest(topic);
    if k == |filter| {
      MatchesNothing(topic[e..]);
    } else {
      MatchesSeparator(filter[k..], topic[e..]);
      if e < |topic| {
        RestWellFormed(Levels(filter));
        WalkComparesLevels(filter[k + 1..], topic[e + 1..]);
      }
    }
  }

  lemma LevelWithin(level: string, topic: string)
    requires '/' !in level && level <= topic
    ensures |level| <= LevelEnd(topic)
  {
  }

  lemma MatchesNothing(topic: string)
    ensures Matches("", topic) <==> topic == ""
  {
  }

  lemma RestWellFormed(filter: seq<string>)
    requires WellFormed(filter) && filter != []
    ensures WellFormed(filter[1..])
  {
  }

  lemma FirstWellFormed(filter: seq<string>)
    requires WellFormed(filter) && filter != []
    ensures filter[0] == "+" || (filter[0] == "#" && |filter| == 1) || Plain(filter[0])
    ensures !Plain("+") && !Plain("#")
  {
  }

  /** On a well-formed filter the pointer walk compares level by level. */
  lemma {:induction false} WalkComparesLevels(filter: string, topic: string)
    requires WellFormed(Levels(filter))
    ensures Matches(filter, topic) <==> StrictMatches(Levels(filter), Levels(topic))
    decreases |filter|, 1
  {
    hide Matches, Levels, LevelEnd, WellFormed, Plain;
    var k, e, level := LevelEnd(filter), LevelEnd(topic), Levels(filter)[0];
    LevelsOfRest(filter);
    LevelsOfRest(topic);
    FirstWellFormed(Levels(filter));
    FirstLevelEmpty(topic);
    AfterLevel(filter, topic);
    assert filter == level + filter[k..];
    if level == "#" {
      MatchesWildcards("", topic);
      assert filter == "#";
    } else if level == "+" {
      MatchesWildcards(filter[k..], topic);
    } else {
      MatchesPlain(level, filter[k..], topic);
      if level <= topic {
        LevelWithin(level, topic);
        if k < e {
          LongerLevel(filter[k..], topic, k);
        }
      }
    }
  }

  // Against the standard

  /** Sound: whatever isTopicMatched accepts for a well-formed filter, section 4.7.1 accepts. */
  lemma {:induction false} StrictIsSound(filter: seq<string>, topic: seq<string>)
    requires WellFormed(filter) && StrictMatches(filter, topic)
    ensures SpecMatches(filter, topic) && |filter| <= |topic|
  {
    if filter != [] && filter[0] != "#" {
      RestWellFormed(filter);
      StrictIsSound(filter[1..], topic[1..]);
    }
  }

  /** Complete on topics without empty levels, except that '#' does not match the parent level itself. */
  lemma {:induction false} StrictIsComplete(filter: seq<string>, topic: seq<string>)
    requires WellFormed(filter) && "" !in topic && SpecMatches(filter, topic)
    ensures StrictMatches(filter, topic) <==> |filter| <= |topic|
  {
    if StrictMatches(filter, topic) {
      StrictIsSound(filter, topic);
    }
    if |filter| <= |topic| && filter != [] && filter[0] != "#" {
      RestWellFormed(filter);
      StrictIsComplete(filter[1..], topic[1..]);
    }
  }

  /**
   For every well-formed filter: what isTopicMatched accepts is accepted by section 4.7.1; and on topics without empty
   levels the two agree exactly, but for the parent level of '#', where the filter has more levels than the topic.
   */
  lemma MatchesTheStandard(filter: string, topic: string)
    requires WellFormed(Levels(filter))
    ensures Matches(filter, topic) ==> SpecMatches(Levels(filter), Levels(topic))
    ensures "" !in Levels(topic) ==>
              (Matches(filter, topic) <==>
                SpecMatches(Levels(filter), Levels(topic)) && |Levels(filter)| <= |Levels(topic)|)
  {
    hide Matches, Levels, WellFormed, SpecMatches, StrictMatches;
    WalkComparesLevels(filter, topic);
    if Matches(filter, topic) {
      StrictIsSound(Levels(filter), Levels(topic));
    }
    if "" !in Levels(topic) && SpecMatches(Levels(filter), Levels(topic)) {
      StrictIsComplete(Levels(filter), Levels(topic));
    }
  }

  /** The standard accepts these pairs, isTopicMatched does not: the parent level, and levels that are empty. */
  lemma RefusedByTheWalk()
    ensures SpecMatches(Levels("a/#"), Levels("a")) && !Matches("a/#", "a")
    ensures SpecMatches(Levels("+"), Levels("")) && !Matches("+", "")
    ensures SpecMatches(Levels("#"), Levels("/a")) && !Matches("#", "/a")
  {
    LevelEndIs("a", 1);
    LevelEndIs("#", 1);
    LevelEndIs("+", 1);
    LevelEndIs("a/#", 1);
    LevelEndIs("/a", 0);
    assert "a/#"[..1] == "a" && "a/#"[2..] == "#" && "a/#"[1..] == "/#" && "a"[1..] == "";
    assert Levels("a") == ["a"] && Levels("#") == ["#"] && Levels("+") == ["+"];
  }
}
