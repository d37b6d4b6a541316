/** The two strings a submission builds from the route list: the chat message
    shown to the user and the instruction sent to the completion service.
    Both are a fixed text around the routes, each given a bullet and joined
    by single spaces. */
module Messages {

  const Separator: string := " "

  const UserMessagePrefix: string := "Necesito optimizar esta ruta: "
  /** Hyphen-minus followed by a space. */
  const UserBullet: string := "- "

  const PromptPrefix: string := "Dada la siguiente lista de destinos: "
  /** En dash (U+2013) followed by a space. */
  const PromptBullet: string := "\U{2013} "
  const PromptSuffix: string :=
    " Indica la ruta óptima para llegar a todos los destinos de manera eficiente, "
    + "organizando el orden de visita de forma sencilla y sin introducciones innecesarias."

  /** Each route with the bullet put in front of it, in order. */
  function Bulleted(bullet: string, routes: seq<string>): (items: seq<string>)
    ensures |items| == |routes|
  {
    if routes == [] then [] else [bullet + routes[0]] + Bulleted(bullet, routes[1..])
  }

  /** Item `i` of the bulleted list is route `i` behind the bullet. */
  lemma {:induction false} BulletedAt(bullet: string, routes: seq<string>, i: nat)
    requires i < |routes|
    ensures Bulleted(bullet, routes)[i] == bullet + routes[i]
  {
    if i > 0 {
      BulletedAt(bullet, routes[1..], i - 1);
    }
  }

  /** Bulleting one more route appends one more item. */
  lemma {:induction false} BulletedSnoc(bullet: string, routes: seq<string>, r: string)
    ensures Bulleted(bullet, routes + [r]) == Bulleted(bullet, routes) + [bullet + r]
  {
    if routes != [] {
      assert (routes + [r])[1..] == routes[1..] + [r];
      BulletedSnoc(bullet, routes[1..], r);
    }
  }

  /** The items in order with `sep` between neighbours; the empty list
      joins to the empty string. */
  function Join(items: seq<string>, sep: string): (joined: string)
  {
    if |items| == 0 then ""
    else if |items| == 1 then items[0]
    else items[0] + sep + Join(items[1..], sep)
  }

  /** Where item `i` starts in `Join(items, sep)`. */
  function ItemOffset(items: seq<string>, sep: string, i: nat): (offset: nat)
    requires i < |items|
  {
    if i == 0 then 0 else |items[0]| + |sep| + ItemOffset(items[1..], sep, i - 1)
  }

  /** Consecutive offsets are one item and one separator apart. */
  lemma {:induction false} ItemOffsetNext(items: seq<string>, sep: string, i: nat)
    requires i + 1 < |items|
    ensures ItemOffset(items, sep, i + 1) == ItemOffset(items, sep, i) + |items[i]| + |sep|
  {
    if i > 0 {
      ItemOffsetNext(items[1..], sep, i - 1);
    }
  }

  /** A slice of the right operand of a concatenation, shifted by the left one. */
  lemma SliceRight(a: string, b: string, lo: nat, hi: nat)
    requires lo <= hi <= |b|
    ensures (a + b)[|a| + lo..|a| + hi] == b[lo..hi]
  {
  }

  /** A slice of the middle operand of `prefix + j + suffix`, shifted by the prefix. */
  lemma SliceFramed(prefix: string, j: string, suffix: string, lo: nat, hi: nat)
    requires lo <= hi <= |j|
    ensures |prefix| + hi <= |prefix + j + suffix|
    ensures (prefix + j + suffix)[|prefix| + lo..|prefix| + hi] == j[lo..hi]
  {
    var t := prefix + j + suffix;
    assert forall k {:trigger j[k]} :: lo <= k < hi ==> t[|prefix| + k] == j[k];
  }

  /** A slice that spells `a + b` splits into a slice spelling `a` and one spelling `b`. */
  lemma SliceSplit(s: string, lo: nat, a: string, b: string)
    requires lo + |a| + |b| <= |s| && s[lo..lo + |a| + |b|] == a + b
    ensures s[lo..lo + |a|] == a
    ensures s[lo + |a|..lo + |a| + |b|] == b
  {
    assert forall k {:trigger s[k]} :: lo <= k < lo + |a| + |b| ==> s[k] == (a + b)[k - lo];
  }

  /** Item `i` of a join sits at its offset. */
  lemma {:induction false} JoinItemAt(items: seq<string>, sep: string, i: nat)
    requires i < |items|
    ensures ItemOffset(items, sep, i) + |items[i]| <= |Join(items, sep)|
    ensures Join(items, sep)[ItemOffset(items, sep, i)..ItemOffset(items, sep, i) + |items[i]|] == items[i]
  {
    var j := Join(items, sep);
    var o := ItemOffset(items, sep, i);
    if |items| == 1 {
      assert j == items[0] && o == 0;
      assert j[0..|items[0]|] == items[0];
    } else {
      var rest := items[1..];
      var tail := Join(rest, sep);
      if i == 0 {
        assert j == items[0] + (sep + tail) && o == 0;
        assert j[0..|items[0]|] == items[0];
      } else {
        var head := items[0] + sep;
        assert j == head + tail;
        assert rest[i - 1] == items[i];
        JoinItemAt(rest, sep, i - 1);
        var o' := ItemOffset(rest, sep, i - 1);
        assert o == |head| + o';
        SliceRight(head, tail, o', o' + |items[i]|);
      }
    }
  }

  /** Every item but the last is followed by the separator. */
  lemma {:induction false} JoinSeparatorAfter(items: seq<string>, sep: string, i: nat)
    requires i + 1 < |items|
    ensures var o := ItemOffset(items, sep, i) + |items[i]|;
      o + |sep| <= |Join(items, sep)| && Join(items, sep)[o..o + |sep|] == sep
  {
    var head, tail := items[0] + sep, Join(items[1..], sep);
    assert Join(items, sep) == head + tail;
    if i > 0 {
      JoinSeparatorAfter(items[1..], sep, i - 1);
      var o := ItemOffset(items[1..], sep, i - 1) + |items[i]|;
      SliceRight(head, tail, o, o + |sep|);
    } else {
      assert (head + tail)[|items[0]|..|head|] == sep;
    }
  }

  /** The last item ends the join. */
  lemma {:induction false} JoinEndsWithLast(items: seq<string>, sep: string)
    requires items != []
    ensures |Join(items, sep)| == ItemOffset(items, sep, |items| - 1) + |items[|items| - 1]|
  {
    if |items| > 1 {
      JoinEndsWithLast(items[1..], sep);
    }
  }

  /** Appending one item to a non-empty list appends the separator and the item. */
  lemma {:induction false} JoinSnoc(items: seq<string>, x: string, sep: string)
    requires items != []
    ensures Join(items + [x], sep) == Join(items, sep) + sep + x
  {
    if |items| > 1 {
      assert (items + [x])[1..] == items[1..] + [x];
      JoinSnoc(items[1..], x, sep);
    } else {
      assert items + [x] == [items[0], x];
    }
  }

  /** The user-visible chat message of a submission. */
  function UserMessage(routes: seq<string>): (text: string)
  {
    UserMessagePrefix + Join(Bulleted(UserBullet, routes), Separator)
  }

  /** The instruction sent to the completion service. */
  function Prompt(routes: seq<string>): (text: string)
  {
    PromptPrefix + Join(Bulleted(PromptBullet, routes), Separator) + PromptSuffix
  }

  /** A bullet and a route spelled at offset `o` of `j` are spelled at
      offset `|prefix| + o` of `prefix + j + suffix`. */
  lemma FramedPiece(prefix: string, j: string, suffix: string, o: nat, bullet: string, route: string)
    requires o + |bullet| + |route| <= |j|
    requires j[o..o + |bullet|] == bullet && j[o + |bullet|..o + |bullet| + |route|] == route
    ensures |prefix| + o + |bullet| + |route| <= |prefix + j + suffix|
    ensures (prefix + j + suffix)[|prefix| + o..|prefix| + o + |bullet|] == bullet
    ensures (prefix + j + suffix)[|prefix| + o + |bullet|..|prefix| + o + |bullet| + |route|] == route
  {
    SliceFramed(prefix, j, suffix, o, o + |bullet|);
    SliceFramed(prefix, j, suffix, o + |bullet|, o + |bullet| + |route|);
  }

  /** When item `i` of a join is a bullet followed by a route, then with any
      fixed text before and after the join, the bullet and the route appear
      verbatim at the item's offset, shifted by the text before. */
  lemma FramedItemParts(prefix: string, items: seq<string>, sep: string, suffix: string,
                        i: nat, bullet: string, route: string)
    requires i < |items| && items[i] == bullet + route
    ensures var s := prefix + Join(items, sep) + suffix;
      var at := |prefix| + ItemOffset(items, sep, i);
      && at + |bullet| + |route| <= |s|
      && s[at..at + |bullet|] == bullet
      && s[at + |bullet|..at + |bullet| + |route|] == route
  {
    var j := Join(items, sep);
    var o := ItemOffset(items, sep, i);
    JoinItemAt(items, sep, i);
    SliceSplit(j, o, bullet, route);
    FramedPiece(prefix, j, suffix, o, bullet, route);
  }

  /** In a bulleted list framed by any prefix and suffix, route `i` appears
      verbatim right after its bullet. */
  lemma FramedListHasRoute(prefix: string, bullet: string, routes: seq<string>, suffix: string, i: nat)
    requires i < |routes|
    ensures var s := prefix + Join(Bulleted(bullet, routes), Separator) + suffix;
      var at := |prefix| + ItemOffset(Bulleted(bullet, routes), Separator, i);
      && at + |bullet| + |routes[i]| <= |s|
      && s[at..at + |bullet|] == bullet
      && s[at + |bullet|..at + |bullet| + |routes[i]|] == routes[i]
  {
    BulletedAt(bullet, routes, i);
    FramedItemParts(prefix, Bulleted(bullet, routes), Separator, suffix, i, bullet, routes[i]);
  }

  /** Route `i` appears verbatim in the user message, right after its "- " bullet. */
  lemma UserMessageListsRoute(routes: seq<string>, i: nat)
    requires i < |routes|
    ensures var at := |UserMessagePrefix| + ItemOffset(Bulleted(UserBullet, routes), Separator, i);
      && at + |UserBullet| + |routes[i]| <= |UserMessage(routes)|
      && UserMessage(routes)[at..at + |UserBullet|] == UserBullet
      && UserMessage(routes)[at + |UserBullet|..at + |UserBullet| + |routes[i]|] == routes[i]
  {
    FramedListHasRoute(UserMessagePrefix, UserBullet, routes, "", i);
    assert UserMessage(routes) == UserMessagePrefix + Join(Bulleted(UserBullet, routes), Separator) + "";
  }

  /** Route `i` appears verbatim in the prompt, right after its en-dash bullet. */
  lemma PromptListsRoute(routes: seq<string>, i: nat)
    requires i < |routes|
    ensures var at := |PromptPrefix| + ItemOffset(Bulleted(PromptBullet, routes), Separator, i);
      && at + |PromptBullet| + |routes[i]| <= |Prompt(routes)|
      && Prompt(routes)[at..at + |PromptBullet|] == PromptBullet
      && Prompt(routes)[at + |PromptBullet|..at + |PromptBullet| + |routes[i]|] == routes[i]
  {
    FramedListHasRoute(PromptPrefix, PromptBullet, routes, PromptSuffix, i);
  }

  /** One more route extends the user message by " - " and that route. */
  lemma UserMessageSnoc(routes: seq<string>, r: string)
    requires routes != []
    ensures UserMessage(routes + [r]) == UserMessage(routes) + Separator + UserBullet + r
  {
    BulletedSnoc(UserBullet, routes, r);
    JoinSnoc(Bulleted(UserBullet, routes), UserBullet + r, Separator);
  }

  /** A single route gives "Necesito optimizar esta ruta: - " followed by it. */
  lemma UserMessageOfOneRoute(r: string)
    ensures UserMessage([r]) == UserMessagePrefix + UserBullet + r
  {
    assert Bulleted(UserBullet, [r]) == [UserBullet + r];
  }

  /** What the user sees is never what the service is sent. */
  lemma UserMessageIsNotPrompt(routes: seq<string>)
    ensures UserMessage(routes) != Prompt(routes)
  {
    assert UserMessage(routes)[0] == UserMessagePrefix[0];
    assert Prompt(routes)[0] == PromptPrefix[0];
  }
}
