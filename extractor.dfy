/** The scan in `WindFinder::obtain_data` that finds the forecast array
    embedded in the page's `<script>` elements and repairs it for decoding.
    The scripts arrive as their texts; JSON decoding is the caller-supplied
    function `decode`, which yields `None` where `serde_json::from_str` fails. */
module Extractor {
  import opened Wrappers
  import opened Text

  const PushMarker: string := "window.ctx.push"
  const PushCall: string := "window.ctx.push("
  const DataKey: string := "fcdata"
  const DataLabel: string := "fcData:"
  const CallEnd: string := ");"
  const NullField: string := ": null"
  const ZeroField: string := ": 0"

  /** `c` is the character `k` stands for, ignoring the case of ASCII letters. */
  predicate SameIgnoringCase(c: char, k: char) {
    c == k || ('a' <= k <= 'z' && c as int == k as int - 32)
  }

  /** The data key is spelt at `i`, in any mix of upper- and lower-case letters. */
  predicate KeyAt(script: string, i: int) {
    0 <= i && i + |DataKey| <= |script|
    && forall j :: 0 <= j < |DataKey| ==> SameIgnoringCase(script[i + j], DataKey[j])
  }

  /** Lower-casing the script and searching for the key finds exactly the
      places where the key is spelt in any case. */
  lemma KeyAtLower(script: string, i: int)
    ensures OccursAt(ToLower(script), DataKey, i) <==> KeyAt(script, i)
  {
    if 0 <= i && i + |DataKey| <= |script| {
      var lower := ToLower(script);
      assert forall j :: 0 <= j < |DataKey| ==> 'a' <= DataKey[j] <= 'z';
      if OccursAt(lower, DataKey, i) {
        forall j | 0 <= j < |DataKey| ensures SameIgnoringCase(script[i + j], DataKey[j]) {
          assert lower[i..i + |DataKey|][j] == lower[i + j];
        }
      }
      if KeyAt(script, i) {
        assert lower[i..i + |DataKey|] == DataKey;
      }
    }
  }

  /** The case-insensitive search for the data key. */
  lemma CandidateKey(script: string)
    ensures Contains(ToLower(script), DataKey) <==> exists i :: KeyAt(script, i)
  {
    if Contains(ToLower(script), DataKey) {
      var i :| OccursAt(ToLower(script), DataKey, i);
      KeyAtLower(script, i);
    }
    if exists i :: KeyAt(script, i) {
      var i :| KeyAt(script, i);
      KeyAtLower(script, i);
    }
  }

  /** A script is scanned only if it holds the push marker and spells the data
      key somewhere, in any case. */
  function IsCandidate(script: string): (b: bool)
    ensures b <==> Contains(script, PushMarker) && exists i :: KeyAt(script, i)
  {
    CandidateKey(script);
    Contains(script, PushMarker) && Contains(ToLower(script), DataKey)
  }

  /** The two `replace` calls applied to every segment of a candidate script:
      each removal keeps the text between the occurrences and drops the rest. */
  function StripCalls(segment: string): (r: string)
    ensures r == Join(Split(Join(Split(segment, PushCall), ""), CallEnd), "")
  {
    var once := ReplaceAll(segment, PushCall, "");
    ReplaceIsJoinSplit(segment, PushCall, "");
    ReplaceIsJoinSplit(once, CallEnd, "");
    ReplaceAll(once, CallEnd, "")
  }

  /** `k` is where `piece` is cut: at its first `]`, or at its end when it has none. */
  predicate CutAt(piece: string, k: int) {
    0 <= k <= |piece| && ']' !in piece[..k] && (k < |piece| ==> piece[k] == ']')
  }

  /** The first piece of `split("]")` ends where the piece is cut. */
  lemma SplitHeadIsCut(piece: string)
    ensures CutAt(piece, |Split(piece, "]")[0]|)
    ensures Split(piece, "]")[0] == piece[..|Split(piece, "]")[0]|]
  {
    var parts := Split(piece, "]");
    var k := |parts[0]|;
    ContainsChar(parts[0], ']');
    if k < |piece| {
      assert OccursAt(piece, "]", k);
      assert piece[k..k + 1] == "]";
    }
  }

  /** Trimming removes characters and adds none. */
  lemma TrimKeepsAbsent(s: string, c: char)
    requires c !in s
    ensures c !in Trim(s)
  {
    var r := Trim(s);
    var lo :| TrimmedAt(s, r, lo);
    forall i | 0 <= i < |r| ensures r[i] != c {
      assert r[i] == s[lo + i];
    }
  }

  /** The array text: the piece up to its first `]`, trimmed, with `]` put back. */
  function IsolateArray(piece: string): (r: string)
    ensures EndsWithOnly(r, ']')
    ensures exists k :: CutAt(piece, k) && r == Trim(piece[..k]) + "]"
  {
    var head := Split(piece, "]")[0];
    SplitHeadIsCut(piece);
    TrimKeepsAbsent(head, ']');
    Trim(head) + "]"
  }

  /** A prefix free of `:` in the repaired text was already in the original:
      every inserted `": 0"` starts with `:`. */
  lemma {:induction false} RepairKeepsColonFreePrefix(t: string, q: string)
    ensures ':' !in q && q <= ReplaceAll(t, NullField, ZeroField) ==> q <= t
    decreases |t|
  {
    if q != [] && |t| > 0 {
      var r := ReplaceAll(t, NullField, ZeroField);
      if OccursAt(t, NullField, 0) {
        assert r[0] == ':';
        assert q <= r ==> q[0] in q && q[0] == ':';
      } else {
        var rest := ReplaceAll(t[1..], NullField, ZeroField);
        assert r == [t[0]] + rest;
        RepairKeepsColonFreePrefix(t[1..], q[1..]);
        assert ':' !in q ==> ':' !in q[1..];
        assert q <= r ==> q[1..] <= rest && q[0] == t[0];
      }
    }
  }

  /** Where `pat` occurs, each of its characters is found at its offset. */
  lemma OccursAtChar(s: string, pat: string, i: int, k: int)
    requires OccursAt(s, pat, i) && 0 <= k < |pat|
    ensures s[i + k] == pat[k]
  {
    assert s[i..i + |pat|][k] == s[i + k];
  }

  /** An occurrence inside `prefix + rest` that starts within `rest` is one of `rest`. */
  lemma OccursAtShift(prefix: string, rest: string, pat: string, i: int)
    requires OccursAt(prefix + rest, pat, i) && i >= |prefix|
    ensures OccursAt(rest, pat, i - |prefix|)
  {
    assert (prefix + rest)[i..i + |pat|] == rest[i - |prefix|..i - |prefix| + |pat|];
  }

  /** After `replace(": null", ": 0")` no `": null"` is left, not even one
      formed across a replacement. */
  lemma {:induction false} RepairRemovesNulls(s: string)
    ensures !Contains(ReplaceAll(s, NullField, ZeroField), NullField)
    decreases |s|
  {
    var r := ReplaceAll(s, NullField, ZeroField);
    if |s| > 0 && OccursAt(s, NullField, 0) {
      var rest := ReplaceAll(s[|NullField|..], NullField, ZeroField);
      RepairRemovesNulls(s[|NullField|..]);
      assert r == ZeroField + rest;
      forall i | OccursAt(r, NullField, i) ensures false {
        OccursAtChar(r, NullField, i, 0);
        OccursAtChar(r, NullField, i, 2);
        if i >= 3 {
          OccursAtShift(ZeroField, rest, NullField, i);
        }
      }
    } else if |s| > 0 {
      var rest := ReplaceAll(s[1..], NullField, ZeroField);
      RepairRemovesNulls(s[1..]);
      assert r == [s[0]] + rest;
      forall i | OccursAt(r, NullField, i) ensures false {
        if i >= 1 {
          OccursAtShift([s[0]], rest, NullField, i);
        } else {
          assert rest[..5] == r[1..6] == NullField[1..];
          RepairKeepsColonFreePrefix(s[1..], " null");
        }
      }
    }
  }

  /** The literal `null` repair: `": null"` becomes `": 0"` and the text
      between the occurrences is kept. */
  function RepairNulls(text: string): (r: string)
    ensures r == Join(Split(text, NullField), ZeroField)
    ensures !Contains(r, NullField)
    ensures EndsWithOnly(text, ']') ==> EndsWithOnly(r, ']')
  {
    RepairRemovesNulls(text);
    ReplaceIsJoinSplit(text, NullField, ZeroField);
    var r := ReplaceAll(text, NullField, ZeroField);
    assert EndsWithOnly(text, ']') ==> EndsWithOnly(r, ']') by {
      if EndsWithOnly(text, ']') {
        ReplaceKeepsEndsWithOnly(text, NullField, ZeroField, ']');
      }
    }
    r
  }

  /** The shape of every text handed to the decoder: a single closing
      bracket, at the end, and no `": null"`. */
  predicate Repaired(p: string) {
    EndsWithOnly(p, ']') && !Contains(p, NullField)
  }

  /** What one segment contributes: nothing without `fcData:`, otherwise the
      repaired text after the first `fcData:` (up to any second one) cut at
      its first `]`. */
  function SegmentPayload(segment: string): (r: Option<string>)
    ensures r.Some? <==> Contains(StripCalls(segment), DataLabel)
    ensures r.Some? ==> Repaired(r.value)
    ensures r.Some? ==>
              var t := StripCalls(segment);
              var i := IndexOf(t, DataLabel).value;
              r.value == RepairNulls(IsolateArray(Split(t[i + |DataLabel|..], DataLabel)[0]))
  {
    var t := StripCalls(segment);
    var parts := Split(t, DataLabel);
    if |parts| > 1 then
      SplitFirst(t, DataLabel);
      Some(RepairNulls(IsolateArray(parts[1])))
    else None
  }

  /** One segment's payload as a list of zero or one texts. */
  function Contribution(segment: string): (ps: seq<string>)
    ensures |ps| <= 1
  {
    match SegmentPayload(segment)
    case Some(p) => [p]
    case None => []
  }

  /** The concatenation of `f(x)` over `xs`, in order. */
  function Flatten(xs: seq<string>, f: string -> seq<string>): seq<string> {
    if xs == [] then [] else Flatten(xs[..|xs| - 1], f) + f(xs[|xs| - 1])
  }

  /** Flattening distributes over concatenation. */
  lemma {:induction false} FlattenAppend(a: seq<string>, b: seq<string>, f: string -> seq<string>)
    ensures Flatten(a + b, f) == Flatten(a, f) + Flatten(b, f)
    decreases |b|
  {
    if b == [] {
      assert a + b == a;
    } else {
      var b', last := b[..|b| - 1], b[|b| - 1];
      FlattenAppend(a, b', f);
      assert (a + b)[..|a + b| - 1] == a + b' && (a + b)[|a + b| - 1] == last;
      calc {
        Flatten(a + b, f);
        Flatten(a + b', f) + f(last);
        Flatten(a, f) + Flatten(b', f) + f(last);
        Flatten(a, f) + Flatten(b, f);
      }
    }
  }

  /** Extending the input by one item appends that item's part. */
  lemma FlattenSnoc(xs: seq<string>, i: nat, f: string -> seq<string>)
    requires i < |xs|
    ensures Flatten(xs[..i + 1], f) == Flatten(xs[..i], f) + f(xs[i])
  {
    assert xs[..i + 1][..i] == xs[..i];
  }

  /** Each part of a flattening is a consecutive slice of the whole. */
  lemma {:induction false} FlattenPrefix(xs: seq<string>, i: nat, f: string -> seq<string>)
    requires i <= |xs|
    ensures Flatten(xs[..i], f) <= Flatten(xs, f)
    decreases |xs|
  {
    if i == |xs| {
      assert xs[..i] == xs;
    } else {
      var init := xs[..|xs| - 1];
      FlattenPrefix(init, i, f);
      assert init[..i] == xs[..i];
    }
  }

  /** An item whose part is empty can be dropped from the input. */
  lemma FlattenSkip(before: seq<string>, x: string, after: seq<string>, f: string -> seq<string>)
    requires f(x) == []
    ensures Flatten(before + [x] + after, f) == Flatten(before + after, f)
  {
    FlattenAppend(before + [x], after, f);
    assert Flatten(before + [x], f) == Flatten(before, f) + f(x) by {
      assert (before + [x])[..|before|] == before;
    }
    FlattenAppend(before, after, f);
  }

  /** The payloads of a run of segments, in order. */
  function SegmentsPayloads(segments: seq<string>): seq<string> {
    Flatten(segments, Contribution)
  }

  /** The payloads of one script: those of its `window.ctx.push(` segments
      when it is a candidate, none otherwise. */
  function ScriptPayloads(script: string): (ps: seq<string>)
    ensures !IsCandidate(script) ==> ps == []
  {
    if IsCandidate(script) then SegmentsPayloads(Split(script, PushCall)) else []
  }

  /** The payloads of all scripts in document order: each one, when decoded,
      overwrites the list held so far. */
  function Payloads(scripts: seq<string>): seq<string> {
    Flatten(scripts, ScriptPayloads)
  }

  /** Every payload decodes: `serde_json::from_str(..).unwrap()` does not panic. */
  predicate DecodesAll<E>(scripts: seq<string>, decode: string -> Option<seq<E>>) {
    forall p :: p in Payloads(scripts) ==> decode(p).Some?
  }

  /** The list held after decoding `payloads` in turn, starting from
      `fetched`: each payload's decoding replaces the list, so the last wins. */
  function Overwrite<E>(fetched: seq<E>, payloads: seq<string>, decode: string -> Option<seq<E>>): (r: seq<E>)
    requires forall p :: p in payloads ==> decode(p).Some?
    ensures payloads == [] ==> r == fetched
    ensures payloads != [] ==> decode(payloads[|payloads| - 1]) == Some(r)
  {
    if payloads == [] then fetched else decode(payloads[|payloads| - 1]).value
  }

  /** The list the whole scan ends with, from the initial empty list. */
  function LastDecoded<E>(payloads: seq<string>, decode: string -> Option<seq<E>>): (r: seq<E>)
    requires forall p :: p in payloads ==> decode(p).Some?
    ensures payloads == [] ==> r == []
    ensures payloads != [] ==> decode(payloads[|payloads| - 1]) == Some(r)
  {
    Overwrite([], payloads, decode)
  }

  /** Overwriting in two runs is overwriting with both runs in order. */
  lemma OverwriteAppend<E>(fetched: seq<E>, a: seq<string>, b: seq<string>, decode: string -> Option<seq<E>>)
    requires forall p :: p in a + b ==> decode(p).Some?
    ensures Overwrite(Overwrite(fetched, a, decode), b, decode) == Overwrite(fetched, a + b, decode)
  {
    if b == [] {
      assert a + b == a;
    } else {
      assert (a + b)[|a + b| - 1] == b[|b| - 1];
    }
  }

  /** Whatever is in a prefix is in the whole sequence. */
  lemma PrefixMembers(a: seq<string>, b: seq<string>)
    requires a <= b
    ensures forall x :: x in a ==> x in b
  {
    forall x | x in a ensures x in b {
      var k :| 0 <= k < |a| && a[k] == x;
      assert b[k] == x;
    }
  }

  /** The inner loop of `obtain_data`, over the `window.ctx.push(` segments
      of one candidate script: every segment with a payload replaces `fetched`. */
  method ScanSegments<E>(segments: seq<string>, decode: string -> Option<seq<E>>, fetched0: seq<E>)
      returns (fetched: seq<E>)
    requires forall p :: p in SegmentsPayloads(segments) ==> decode(p).Some?
    ensures fetched == Overwrite(fetched0, SegmentsPayloads(segments), decode)
  {
    fetched := fetched0;
    for j := 0 to |segments|
      invariant SegmentsPayloads(segments[..j]) <= SegmentsPayloads(segments)
      invariant fetched == Overwrite(fetched0, SegmentsPayloads(segments[..j]), decode)
    {
      FlattenSnoc(segments, j, Contribution);
      FlattenPrefix(segments, j + 1, Contribution);
      PrefixMembers(SegmentsPayloads(segments[..j + 1]), SegmentsPayloads(segments));
      var stripped := StripCalls(segments[j]);
      var parts := Split(stripped, DataLabel);
      if |parts| > 1 {
        var repaired := RepairNulls(IsolateArray(parts[1]));
        assert Contribution(segments[j]) == [repaired];
        fetched := decode(repaired).value;
      } else {
        assert Contribution(segments[j]) == [];
      }
    }
    assert segments[..|segments|] == segments;
  }

  /** The outer loop of `obtain_data`, over the page's scripts:
      non-candidate scripts are skipped. */
  method ScanScripts<E>(scripts: seq<string>, decode: string -> Option<seq<E>>)
      returns (fetched: seq<E>)
    requires DecodesAll(scripts, decode)
    ensures fetched == LastDecoded(Payloads(scripts), decode)
  {
    fetched := [];
    for i := 0 to |scripts|
      invariant Payloads(scripts[..i]) <= Payloads(scripts)
      invariant fetched == LastDecoded(Payloads(scripts[..i]), decode)
    {
      var text := scripts[i];
      FlattenSnoc(scripts, i, ScriptPayloads);
      FlattenPrefix(scripts, i + 1, ScriptPayloads);
      PrefixMembers(Payloads(scripts[..i + 1]), Payloads(scripts));
      if Contains(text, PushMarker) && Contains(ToLower(text), DataKey) {
        var segments := Split(text, PushCall);
        assert ScriptPayloads(text) == SegmentsPayloads(segments);
        fetched := ScanSegments(segments, decode, fetched);
        OverwriteAppend([], Payloads(scripts[..i]), SegmentsPayloads(segments), decode);
      } else {
        assert ScriptPayloads(text) == [];
        assert Payloads(scripts[..i + 1]) == Payloads(scripts[..i]);
      }
    }
    assert scripts[..|scripts|] == scripts;
  }

  /** Every text handed to the decoder has its only `]` at the end and no
      `": null"`. */
  lemma {:induction false} SegmentsPayloadsRepaired(segments: seq<string>)
    ensures forall p :: p in SegmentsPayloads(segments) ==> Repaired(p)
    decreases |segments|
  {
    if segments != [] {
      var last := segments[|segments| - 1];
      SegmentsPayloadsRepaired(segments[..|segments| - 1]);
      assert SegmentsPayloads(segments)
          == SegmentsPayloads(segments[..|segments| - 1]) + Contribution(last);
    }
  }

  /** The same, over all the scripts of a page. */
  lemma {:induction false} PayloadsRepaired(scripts: seq<string>)
    ensures forall p :: p in Payloads(scripts) ==> Repaired(p)
    decreases |scripts|
  {
    if scripts != [] {
      var last := scripts[|scripts| - 1];
      PayloadsRepaired(scripts[..|scripts| - 1]);
      if IsCandidate(last) {
        SegmentsPayloadsRepaired(Split(last, PushCall));
      }
      assert Payloads(scripts) == Payloads(scripts[..|scripts| - 1]) + ScriptPayloads(last);
    }
  }

  /** A script without the push marker or the data key changes nothing,
      wherever it stands in the page. */
  lemma NonCandidateIgnored(before: seq<string>, script: string, after: seq<string>)
    requires !IsCandidate(script)
    ensures Payloads(before + [script] + after) == Payloads(before + after)
  {
    FlattenSkip(before, script, after, ScriptPayloads);
  }

  /** The last match wins: once later scripts carry a payload, earlier ones
      do not affect the decoded list. */
  lemma LastMatchWins<E>(earlier: seq<string>, later: seq<string>, decode: string -> Option<seq<E>>)
    requires DecodesAll(earlier + later, decode)
    requires Payloads(later) != []
    ensures forall p :: p in Payloads(later) ==> decode(p).Some?
    ensures LastDecoded(Payloads(earlier + later), decode) == LastDecoded(Payloads(later), decode)
  {
    FlattenAppend(earlier, later, ScriptPayloads);
    var all := Payloads(earlier + later);
    assert all == Payloads(earlier) + Payloads(later);
    assert all[|all| - 1] == Payloads(later)[|Payloads(later)| - 1];
  }

  /** With no payload anywhere the list stays empty. */
  lemma {:induction false} NoMatchNoData<E>(scripts: seq<string>, decode: string -> Option<seq<E>>)
    requires forall script :: script in scripts ==> !IsCandidate(script)
    ensures DecodesAll(scripts, decode)
    ensures LastDecoded(Payloads(scripts), decode) == []
    decreases |scripts|
  {
    if scripts != [] {
      NoMatchNoData(scripts[..|scripts| - 1], decode);
      assert scripts[|scripts| - 1] in scripts;
    }
  }

  /** `split` removes every `window.ctx.push(`, so the first `replace` on a
      segment is a no-op and only the `);` removal has an effect. */
  lemma PushCallAlreadyGone(script: string)
    ensures forall seg :: seg in Split(script, PushCall) ==>
              StripCalls(seg) == ReplaceAll(seg, CallEnd, "")
  {
    SplitPiecesAvoidSep(script, PushCall);
    forall seg | seg in Split(script, PushCall)
      ensures StripCalls(seg) == ReplaceAll(seg, CallEnd, "")
    {
      ReplaceAbsent(seg, PushCall, "");
    }
  }

  /** A script with a push call and the `fcData:` label is always scanned:
      the case-insensitive test finds `fcdata` where `fcData` stands. */
  lemma LabelledPushIsCandidate(script: string)
    requires Contains(script, PushCall) && Contains(script, DataLabel)
    ensures IsCandidate(script)
  {
    var i :| OccursAt(script, PushCall, i);
    assert script[i..i + |PushMarker|] == script[i..i + |PushCall|][..|PushMarker|];
    assert OccursAt(script, PushMarker, i);
    var k :| OccursAt(script, DataLabel, k);
    forall j | 0 <= j < |DataKey| ensures SameIgnoringCase(script[k + j], DataKey[j]) {
      assert script[k + j] == script[k..k + |DataLabel|][j];
    }
    assert KeyAt(script, k);
  }
}
