/**
 * `Items.process_item` and its inner `strip`: turning one item of a
 * `stream/items/contents` response into the metadata columns of its row
 * and the content saved to disk. No field of the item is guaranteed to be
 * present; a missing key the code reads without a default raises, and so
 * does an empty `alternate` list.
 */
module Normalize {
  import opened Wrappers

  datatype Origin = Origin(streamId: Option<string>, htmlUrl: Option<string>)
  datatype Link = Link(href: Option<string>)
  datatype Body = Body(content: Option<string>)

  /** One item of a content response; `None` is a missing key. */
  datatype RemoteItem = RemoteItem(
    id: Option<string>,
    origin: Option<Origin>,
    author: Option<string>,
    title: Option<string>,
    timestampUsec: Option<int>,
    updated: Option<int>,
    alternate: Option<seq<Link>>,
    summary: Option<Body>,
    content: Option<Body>)

  /** The exception processing raises: a missing key, or `[0]` on an empty list. */
  datatype ItemError = KeyError(key: string) | IndexError(key: string)

  /** The columns `process_response` writes for one item. */
  datatype Metadata = Metadata(
    subscription: string,
    author: Option<string>,
    title: Option<string>,
    time: int,
    href: string,
    summary: string)

  // -----------------------------------------------------------------------
  // strip(text)
  // -----------------------------------------------------------------------

  /**
   * Where the match of `<.+?>` that starts at s[0] == '<' ends: the first
   * `>` at index 2 or later, when no newline comes before it (`.` does not
   * match a newline, and `.+` needs at least one character, which may
   * itself be a `>`).
   */
  function TagEnd(s: string): (r: Option<nat>)
    ensures r.Some? ==> 2 <= r.value < |s| && s[r.value] == '>'
  {
    if |s| < 3 || s[1] == '\n' then None else ScanTagEnd(s, 2)
  }

  function ScanTagEnd(s: string, j: nat): (r: Option<nat>)
    ensures r.Some? ==> j <= r.value < |s| && s[r.value] == '>'
    decreases |s| - j
  {
    if j >= |s| || s[j] == '\n' then None
    else if s[j] == '>' then Some(j)
    else ScanTagEnd(s, j + 1)
  }

  /** `re.sub('<.+?>', '', s)`: every match, scanning left to right, is removed. */
  function StripTags(s: string): (r: string)
    ensures |r| <= |s|
    decreases |s|
  {
    if |s| == 0 then ""
    else if s[0] == '<' && TagEnd(s).Some? then StripTags(s[TagEnd(s).value + 1..])
    else [s[0]] + StripTags(s[1..])
  }

  /** The characters for which Python's `str.isspace()` holds. */
  predicate IsSpace(c: char)
  {
    var cp := c as int;
    (0x09 <= cp <= 0x0D) || (0x1C <= cp <= 0x20) || cp == 0x85 || cp == 0xA0 ||
    cp == 0x1680 || (0x2000 <= cp <= 0x200A) || cp == 0x2028 || cp == 0x2029 ||
    cp == 0x202F || cp == 0x205F || cp == 0x3000
  }

  /** `str.lstrip()`: exactly the leading whitespace is removed. */
  function TrimStart(s: string): (r: string)
    ensures |r| <= |s|
    ensures |r| > 0 ==> !IsSpace(r[0])
    ensures r == s[|s| - |r|..]
    ensures forall i :: 0 <= i < |s| - |r| ==> IsSpace(s[i])
  {
    if |s| > 0 && IsSpace(s[0]) then TrimStart(s[1..]) else s
  }

  /** `str.rstrip()`: exactly the trailing whitespace is removed. */
  function TrimEnd(s: string): (r: string)
    ensures |r| <= |s|
    ensures |r| > 0 ==> !IsSpace(r[|r| - 1])
    ensures r == s[..|r|]
    ensures forall i :: |r| <= i < |s| ==> IsSpace(s[i])
  {
    if |s| > 0 && IsSpace(s[|s| - 1]) then TrimEnd(s[..|s| - 1]) else s
  }

  /**
   * `str.strip()`: whitespace removed from both ends. The exact contracts
   * (only whitespace is removed, and all of it) are those of TrimStart and
   * TrimEnd; this one states the shape of the result.
   */
  function Trim(s: string): (r: string)
    ensures |r| <= |s|
    ensures |r| > 0 ==> !IsSpace(r[0]) && !IsSpace(r[|r| - 1])
  {
    TrimEnd(TrimStart(s))
  }

  predicate IsControl(c: char)
  {
    c == '\t' || c == '\n' || c == '\r'
  }

  /** `re.sub('[\t\n\r]+', '', s)`: every run of tabs and line breaks deleted. */
  function RemoveControls(s: string): (r: string)
    ensures |r| <= |s|
    ensures forall i :: 0 <= i < |r| ==> !IsControl(r[i])
  {
    if |s| == 0 then ""
    else if IsControl(s[0]) then RemoveControls(s[1..])
    else [s[0]] + RemoveControls(s[1..])
  }

  /**
   * `strip(text)`: a falsy text (missing or empty) is returned as it is;
   * otherwise tags are removed, the ends trimmed, then tabs and line breaks
   * deleted.
   */
  function Strip(text: Option<string>): (r: Option<string>)
    ensures text.None? || text.value == "" ==> r == text
    ensures r.Some? <==> text.Some?
    ensures r.Some? ==> |r.value| <= |text.value|
    ensures r.Some? ==> forall i :: 0 <= i < |r.value| ==> !IsControl(r.value[i])
    ensures r.Some? && text.value != "" && |r.value| > 0 ==> !IsSpace(r.value[0]) && !IsSpace(r.value[|r.value| - 1])
  {
    if text.None? || text.value == "" then text
    else
      var t := Trim(StripTags(text.value));
      RemoveControlsEnds(t);
      Some(RemoveControls(t))
  }

  /** Deleting controls works piecewise: `[c] + s` keeps c exactly when it is not a control. */
  lemma RemoveControlsCons(c: char, s: string)
    ensures RemoveControls([c] + s) == if IsControl(c) then RemoveControls(s) else [c] + RemoveControls(s)
  {
    assert ([c] + s)[1..] == s;
  }

  lemma {:induction false} RemoveControlsAppend(a: string, b: string)
    ensures RemoveControls(a + b) == RemoveControls(a) + RemoveControls(b)
    decreases |a|
  {
    if |a| == 0 {
      assert a + b == b;
    } else {
      assert a + b == [a[0]] + (a[1..] + b);
      assert a == [a[0]] + a[1..];
      RemoveControlsCons(a[0], a[1..] + b);
      RemoveControlsCons(a[0], a[1..]);
      RemoveControlsAppend(a[1..], b);
    }
  }

  /**
   * Text whose first and last characters are not whitespace keeps both
   * ends when the controls (all of them whitespace) are deleted.
   */
  lemma RemoveControlsEnds(t: string)
    requires |t| > 0 ==> !IsSpace(t[0]) && !IsSpace(t[|t| - 1])
    ensures var r := RemoveControls(t);
      |r| > 0 ==> !IsSpace(r[0]) && !IsSpace(r[|r| - 1])
  {
    if |t| > 0 {
      var last := |t| - 1;
      RemoveControlsCons(t[0], t[1..]);
      assert t == [t[0]] + t[1..];
      assert t == t[..last] + [t[last]];
      RemoveControlsAppend(t[..last], [t[last]]);
      RemoveControlsCons(t[last], []);
      assert [t[last]] + [] == [t[last]];
    }
  }

  /**
   * `strip` removes a tag `<x>` as one match: the text with a leading tag
   * strips to what the text after the tag strips to.
   */
  lemma StripTagged(x: string, rest: string)
    requires |x| >= 1 && x[0] != '\n'
    requires forall i :: 1 <= i < |x| ==> x[i] != '>' && x[i] != '\n'
    ensures Strip(Some("<" + x + ">" + rest)) == Strip(Some(rest))
  {
    StripTagsTag(x, rest);
  }

  /**
   * Text that has no `<`, no tab or line break and no surrounding
   * whitespace comes out of `strip` unchanged.
   */
  lemma StripPlain(t: string)
    requires forall i :: 0 <= i < |t| ==> t[i] != '<' && !IsControl(t[i])
    requires |t| > 0 ==> !IsSpace(t[0]) && !IsSpace(t[|t| - 1])
    ensures Strip(Some(t)) == Some(t)
  {
    if t != "" {
      StripTagsPlain(t);
      RemoveControlsPrefix(t, "");
      assert t + "" == t;
    }
  }

  /** Text without `<` passes through the tag remover unchanged. */
  lemma {:induction false} StripTagsPlain(s: string)
    requires forall i :: 0 <= i < |s| ==> s[i] != '<'
    ensures StripTags(s) == s
  {
    if |s| > 0 {
      StripTagsPlain(s[1..]);
      assert [s[0]] + s[1..] == s;
    }
  }

  /** A prefix without `<` is kept, and the tag remover goes on after it. */
  lemma {:induction false} StripTagsPrefix(a: string, rest: string)
    requires forall i :: 0 <= i < |a| ==> a[i] != '<'
    ensures StripTags(a + rest) == a + StripTags(rest)
  {
    if |a| > 0 {
      var s := a + rest;
      assert s[0] == a[0] && s[1..] == a[1..] + rest;
      StripTagsPrefix(a[1..], rest);
      calc {
        StripTags(s);
        [a[0]] + StripTags(a[1..] + rest);
        [a[0]] + (a[1..] + StripTags(rest));
        { assert [a[0]] + a[1..] == a; }
        a + StripTags(rest);
      }
    } else {
      assert a + rest == rest;
    }
  }

  /** Text without `>` has no tag to match: every `<` in it is kept. */
  lemma {:induction false} StripTagsNoClose(s: string)
    requires forall i :: 0 <= i < |s| ==> s[i] != '>'
    ensures StripTags(s) == s
  {
    if |s| > 0 {
      assert TagEnd(s).None?;
      StripTagsNoClose(s[1..]);
      assert [s[0]] + s[1..] == s;
    }
  }

  lemma {:induction false} ScanTagEndStops(s: string, j: nat, k: nat)
    requires j <= k < |s| && s[k] == '\n'
    requires forall i :: j <= i < k ==> s[i] != '>'
    ensures ScanTagEnd(s, j).None?
    decreases k - j
  {
    if j < k && s[j] != '\n' {
      ScanTagEndStops(s, j + 1, k);
    }
  }

  /**
   * A `<` whose candidate span is cut by a newline before any closing `>`
   * starts no match (`.` does not match a newline): the `<` is kept and the
   * scan resumes right after it.
   */
  lemma StripTagsCut(a: string, rest: string)
    requires forall i :: 1 <= i < |a| ==> a[i] != '>'
    ensures StripTags("<" + a + "\n" + rest) == "<" + StripTags(a + "\n" + rest)
  {
    var s := "<" + a + "\n" + rest;
    var k := |a| + 1;
    assert s[k] == '\n';
    if |s| >= 3 && s[1] != '\n' {
      assert forall i :: 2 <= i < k ==> s[i] == a[i - 1];
      ScanTagEndStops(s, 2, k);
    }
    assert s[1..] == a + "\n" + rest;
  }

  lemma {:induction false} ScanTagEndFinds(s: string, j: nat, k: nat)
    requires j <= k < |s| && s[k] == '>'
    requires forall i :: j <= i < k ==> s[i] != '>' && s[i] != '\n'
    ensures ScanTagEnd(s, j) == Some(k)
    decreases k - j
  {
    if j < k {
      ScanTagEndFinds(s, j + 1, k);
    }
  }

  /**
   * `<x>` is removed as one tag when x is not empty, has no newline, and
   * has no `>` after its first character (the non-greedy match stops at
   * the first `>` that can close it).
   */
  lemma StripTagsTag(x: string, rest: string)
    requires |x| >= 1 && x[0] != '\n'
    requires forall i :: 1 <= i < |x| ==> x[i] != '>' && x[i] != '\n'
    ensures StripTags("<" + x + ">" + rest) == StripTags(rest)
  {
    var s := "<" + x + ">" + rest;
    var k := |x| + 1;
    assert s[k] == '>';
    assert forall i :: 2 <= i < k ==> s[i] == x[i - 1];
    ScanTagEndFinds(s, 2, k);
    assert TagEnd(s) == Some(k);
    assert s[k + 1..] == rest;
  }

  lemma {:induction false} RemoveControlsPrefix(a: string, rest: string)
    requires forall i :: 0 <= i < |a| ==> !IsControl(a[i])
    ensures RemoveControls(a + rest) == a + RemoveControls(rest)
    decreases |a|
  {
    if |a| > 0 {
      var s := a + rest;
      assert s[0] == a[0] && s[1..] == a[1..] + rest;
      RemoveControlsPrefix(a[1..], rest);
      calc {
        RemoveControls(s);
        [a[0]] + RemoveControls(a[1..] + rest);
        [a[0]] + (a[1..] + RemoveControls(rest));
        { assert [a[0]] + a[1..] == a; }
        a + RemoveControls(rest);
      }
    } else {
      assert a + rest == rest;
    }
  }

  // -----------------------------------------------------------------------
  // process_item(item)
  // -----------------------------------------------------------------------

  /**
   * The `time` column: `int(timestampUsec)`, replaced by `updated * 10^6`
   * when it is at least that value, where a missing `updated` counts as -1
   * in the comparison and raises when it is then read.
   */
  function PickTime(timestampUsec: Option<int>, updated: Option<int>): Result<int, ItemError>
  {
    if timestampUsec.None? then Failure(KeyError("timestampUsec"))
    else
      var time := timestampUsec.value;
      var bound := (if updated.Some? then updated.value else -1) * 1_000_000;
      if time >= bound then
        if updated.None? then Failure(KeyError("updated")) else Success(updated.value * 1_000_000)
      else Success(time)
  }

  /** `item['alternate'][0]['href']`, falling back to `item['origin']['htmlUrl']` on a KeyError. */
  function PickHref(alternate: Option<seq<Link>>, origin: Origin): Result<string, ItemError>
  {
    if alternate.Some? && |alternate.value| == 0 then Failure(IndexError("alternate"))
    else if alternate.Some? && alternate.value[0].href.Some? then Success(alternate.value[0].href.value)
    else if origin.htmlUrl.Some? then Success(origin.htmlUrl.value)
    else Failure(KeyError("htmlUrl"))
  }

  /** The summary's content if there is a summary, else the content's, else ''. */
  function PickContent(summary: Option<Body>, content: Option<Body>): Result<string, ItemError>
  {
    if summary.Some? then
      if summary.value.content.Some? then Success(summary.value.content.value) else Failure(KeyError("content"))
    else if content.Some? then
      if content.value.content.Some? then Success(content.value.content.value) else Failure(KeyError("content"))
    else Success("")
  }

  /** `escape(v) if v else v` */
  function EscapeIfTruthy(escape: string -> string, v: Option<string>): Option<string>
  {
    if v.Some? && v.value != "" then Some(escape(v.value)) else v
  }

  function Min(a: int, b: int): int
  {
    if a <= b then a else b
  }

  /** `strip(content)[:512]`, escaped when not empty. */
  function EscapedExcerpt(content: string, escape: string -> string): string
  {
    var stripped := Strip(Some(content)).value;
    var excerpt := stripped[..Min(512, |stripped|)];
    if excerpt != "" then escape(excerpt) else excerpt
  }

  /**
   * The `summary` column: the escaped excerpt, cut to its first 139
   * characters and an ellipsis when longer than 140 characters.
   */
  function Summarize(content: string, escape: string -> string): (r: string)
    ensures |r| <= 140
    ensures var e := EscapedExcerpt(content, escape);
      (|e| <= 140 ==> r == e) &&
      (|e| > 140 ==> |r| == 140 && r[..139] == e[..139] && r[139] == '…')
  {
    var e := EscapedExcerpt(content, escape);
    if |e| > 140 then e[..139] + "…" else e
  }

  /** `process_item(item)`: the metadata columns and the content, or the exception raised. */
  function ProcessItem(item: RemoteItem, escape: string -> string): (r: Result<(Metadata, string), ItemError>)
    ensures item.origin.None? ==> r == Failure(KeyError("origin"))
    ensures item.origin.Some? && item.origin.value.streamId.None? ==> r == Failure(KeyError("streamId"))
    ensures item.timestampUsec.None? ==> r.Failure?
    ensures r.Success? ==> r.value.0.subscription == item.origin.value.streamId.value && |r.value.0.summary| <= 140
  {
    if item.origin.None? then Failure(KeyError("origin"))
    else if item.origin.value.streamId.None? then Failure(KeyError("streamId"))
    else
      var time :- PickTime(item.timestampUsec, item.updated);
      var href :- PickHref(item.alternate, item.origin.value);
      var content :- PickContent(item.summary, item.content);
      var meta := Metadata(
        item.origin.value.streamId.value,
        EscapeIfTruthy(escape, item.author),
        EscapeIfTruthy(escape, Strip(item.title)),
        time,
        href,
        Summarize(content, escape));
      Success((meta, content))
  }

  /**
   * The time rule: with `updated` present the smaller of `timestampUsec`
   * and `updated * 10^6` is kept; with `updated` missing the item raises
   * unless `timestampUsec < -10^6`, in which case it is kept as it is.
   */
  lemma PickTimeRule(ts: int, updated: Option<int>)
    ensures updated.Some? ==> PickTime(Some(ts), updated) == Success(Min(ts, updated.value * 1_000_000))
    ensures updated.None? && ts >= -1_000_000 ==> PickTime(Some(ts), updated) == Failure(KeyError("updated"))
    ensures updated.None? && ts < -1_000_000 ==> PickTime(Some(ts), updated) == Success(ts)
  {
  }

  /** process_item keeps the time rule above and raises exactly where it does. */
  lemma ProcessItemTime(item: RemoteItem, escape: string -> string)
    requires item.origin.Some? && item.origin.value.streamId.Some? && item.timestampUsec.Some?
    ensures var r := ProcessItem(item, escape);
      var ts := item.timestampUsec.value;
      (item.updated.Some? && r.Success? ==> r.value.0.time == Min(ts, item.updated.value * 1_000_000)) &&
      (item.updated.None? && ts >= -1_000_000 ==> r == Failure(KeyError("updated"))) &&
      (item.updated.None? && r.Success? ==> r.value.0.time == ts)
  {
    PickTimeRule(item.timestampUsec.value, item.updated);
  }

  /**
   * `href` is the first alternate link's; the origin's HTML URL is used only
   * when `alternate` or the first link's `href` is missing; an empty
   * `alternate` list raises.
   */
  lemma ProcessItemHref(item: RemoteItem, escape: string -> string)
    ensures var r := ProcessItem(item, escape);
      r.Success? ==>
        (item.alternate.Some? && item.alternate.value[0].href.Some? ==> r.value.0.href == item.alternate.value[0].href.value) &&
        (item.alternate.None? || item.alternate.value[0].href.None? ==> item.origin.value.htmlUrl == Some(r.value.0.href))
    ensures item.origin.Some? && item.origin.value.streamId.Some? && PickTime(item.timestampUsec, item.updated).Success? &&
            item.alternate == Some([])
            ==> ProcessItem(item, escape) == Failure(IndexError("alternate"))
  {
  }

  /**
   * Only a present, non-empty author or stripped title is escaped; the
   * summary is never longer than 140 characters; the content saved is the
   * summary's, else the content's, else empty.
   */
  lemma ProcessItemFields(item: RemoteItem, escape: string -> string)
    ensures var r := ProcessItem(item, escape);
      r.Success? ==>
        var (meta, content) := r.value;
        meta.subscription == item.origin.value.streamId.value &&
        (item.author.Some? && item.author.value != "" ==> meta.author == Some(escape(item.author.value))) &&
        (item.author.None? || item.author.value == "" ==> meta.author == item.author) &&
        meta.title.Some? == item.title.Some? &&
        (meta.title.Some? && Strip(item.title).value != "" ==> meta.title == Some(escape(Strip(item.title).value))) &&
        (item.title.Some? && Strip(item.title).value == "" ==> meta.title == Some("")) &&
        |meta.summary| <= 140 && meta.summary == Summarize(content, escape) &&
        (item.summary.Some? ==> item.summary.value.content == Some(content)) &&
        (item.summary.None? && item.content.Some? ==> item.content.value.content == Some(content)) &&
        (item.summary.None? && item.content.None? ==> content == "")
  {
  }
}
