/** When pb_decode_noinit accepts a message as having all its required fields. */
module RequiredFields {
  import opened Bytes
  import opened Varint
  import opened Descriptor
  import opened Decoding
  import opened Contents
  import opened Delivery

  /** The tags that the loop of pb_decode_noinit reads, in order, when it succeeds. */
  ghost function TagsRead(fields: seq<Field>, s: seq<byte>, st: State): seq<nat>
    requires InShape(fields, st)
    decreases |s|
  {
    if s == [] then []
    else
      var r := DecVarint32(s);
      if r.Fail? || r.value == 0 then []
      else
        var tag := r.value / 8;
        var found := Find(fields, st.pos, tag);
        if found.Some? then
          var d := DecField(fields, found.value, r.value % 8, r.rest, st);
          if d.Fail? then [tag] else [tag] + TagsRead(fields, d.rest, d.value)
        else
          var d := SkipField(r.value % 8, r.rest);
          if d.Fail? then [tag] else [tag] + TagsRead(fields, d.rest, st)
  }

  /** Required field k is one of the first 64 and its tag is among those read. */
  ghost predicate MetBy(fields: seq<Field>, tags: seq<nat>, k: nat)
    requires k < |fields|
  {
    fields[k].htype.Required? && RequiredBefore(fields, k) < MAX_REQUIRED && fields[k].tag in tags
  }

  /** The bits noted are those noted before and those of the required fields whose tags were read. */
  ghost predicate Noted(fields: seq<Field>, tags: seq<nat>, before: set<nat>, after: set<nat>) {
    forall n :: n in after <==>
                n in before || exists k :: 0 <= k < |fields| && MetBy(fields, tags, k) && RequiredBefore(fields, k) == n
  }

  lemma FieldNotes(fields: seq<Field>, p: nat, wt: nat, s: seq<byte>, st: State)
    requires p < |fields| && InShape(fields, st)
    ensures var d := DecField(fields, p, wt, s, st);
            d.Ok? ==> d.value.seen == if fields[p].htype.Required? && RequiredBefore(fields, p) < MAX_REQUIRED
                                      then st.seen + {RequiredBefore(fields, p)} else st.seen
  {
    hide DecCell;
  }

  lemma NotedStep(fields: seq<Field>, p: nat, tags: seq<nat>, before: set<nat>, middle: set<nat>, after: set<nat>)
    requires p < |fields| && DistinctTags(fields)
    requires middle == if fields[p].htype.Required? && RequiredBefore(fields, p) < MAX_REQUIRED
                       then before + {RequiredBefore(fields, p)} else before
    requires Noted(fields, tags, middle, after)
    ensures Noted(fields, [fields[p].tag] + tags, before, after)
  {
    var tags' := [fields[p].tag] + tags;
    assert forall k :: 0 <= k < |fields| ==>
                         (MetBy(fields, tags', k) <==> MetBy(fields, tags, k) || MetBy(fields, [fields[p].tag], k));
    assert forall k :: 0 <= k < |fields| && MetBy(fields, [fields[p].tag], k) ==> k == p;
    forall n
      ensures n in after
              <==> n in before
                   || exists k :: 0 <= k < |fields| && MetBy(fields, tags', k) && RequiredBefore(fields, k) == n
    {
      if n in middle && n !in before {
        assert MetBy(fields, tags', p);
      }
    }
  }

  lemma NotedUnknown(fields: seq<Field>, tag: nat, tags: seq<nat>, before: set<nat>, after: set<nat>)
    requires Noted(fields, tags, before, after)
    requires forall k :: 0 <= k < |fields| ==> fields[k].tag != tag
    ensures Noted(fields, [tag] + tags, before, after)
  {
    assert forall k :: 0 <= k < |fields| ==> (MetBy(fields, [tag] + tags, k) <==> MetBy(fields, tags, k));
  }

  lemma NotFound(fields: seq<Field>, start: nat, tag: nat)
    requires DistinctTags(fields) && (fields == [] || start < |fields|) && Find(fields, start, tag).None?
    ensures forall k :: 0 <= k < |fields| ==> fields[k].tag != tag
  {
    forall k | 0 <= k < |fields| ensures fields[k].tag != tag {
      if fields[k].tag == tag {
        FindUnique(fields, start, k);
      }
    }
  }

  lemma {:induction false} LoopNotes(fields: seq<Field>, s: seq<byte>, st: State)
    requires InShape(fields, st) && DistinctTags(fields)
    ensures var r := DecLoop(fields, s, st); r.Ok? ==> Noted(fields, TagsRead(fields, s, st), st.seen, r.value.seen)
    decreases |s|
  {
    hide DecField, SkipField, Find, DecVarint32, Noted, DistinctTags;
    if s == [] || DecVarint32(s).Fail? || DecVarint32(s).value == 0 {
      NothingNoted(fields, st.seen);
    } else {
      var r := DecVarint32(s);
      var found := Find(fields, st.pos, r.value / 8);
      if found.Some? {
        var d := DecField(fields, found.value, r.value % 8, r.rest, st);
        if d.Ok? && DecLoop(fields, d.rest, d.value).Ok? {
          LoopNotes(fields, d.rest, d.value);
          FieldNotes(fields, found.value, r.value % 8, r.rest, st);
          NotedStep(fields, found.value, TagsRead(fields, d.rest, d.value), st.seen, d.value.seen,
                    DecLoop(fields, d.rest, d.value).value.seen);
        }
      } else {
        var d := SkipField(r.value % 8, r.rest);
        if d.Ok? && DecLoop(fields, d.rest, st).Ok? {
          LoopNotes(fields, d.rest, st);
          NotFound(fields, st.pos, r.value / 8);
          NotedUnknown(fields, r.value / 8, TagsRead(fields, d.rest, st), st.seen,
                       DecLoop(fields, d.rest, st).value.seen);
        }
      }
    }
  }

  lemma NothingNoted(fields: seq<Field>, seen: set<nat>)
    ensures Noted(fields, [], seen, seen)
  {
  }

  lemma {:induction false} SameIndexSameField(fields: seq<Field>, k: nat, l: nat)
    requires k < |fields| && l < |fields| && fields[k].htype.Required? && fields[l].htype.Required?
    requires RequiredBefore(fields, k) == RequiredBefore(fields, l)
    ensures k == l
  {
    if k < l {
      RequiredBeforeMonotone(fields, k + 1, l);
    } else if l < k {
      RequiredBeforeMonotone(fields, l + 1, k);
    }
  }

  /** The tag of every one of the first 64 required fields is among the tags. */
  ghost predicate AllRequiredIn(fields: seq<Field>, tags: seq<nat>) {
    forall k :: 0 <= k < |fields| && fields[k].htype.Required? && RequiredBefore(fields, k) < MAX_REQUIRED ==>
      fields[k].tag in tags
  }

  lemma AllNotedIsAllRead(fields: seq<Field>, tags: seq<nat>, seen: set<nat>)
    requires Noted(fields, tags, {}, seen)
    ensures RequiredMet(fields, seen) <==> AllRequiredIn(fields, tags)
  {
    if RequiredMet(fields, seen) {
      forall k | 0 <= k < |fields| && fields[k].htype.Required? && RequiredBefore(fields, k) < MAX_REQUIRED
        ensures fields[k].tag in tags
      {
        RequiredBeforeMonotone(fields, k + 1, |fields|);
        assert RequiredBefore(fields, k) in seen;
        var l :| 0 <= l < |fields| && MetBy(fields, tags, l) && RequiredBefore(fields, l) == RequiredBefore(fields, k);
        SameIndexSameField(fields, k, l);
      }
    }
    if AllRequiredIn(fields, tags) {
      forall n | 0 <= n < RequiredBefore(fields, |fields|) && n < MAX_REQUIRED ensures n in seen {
        var k := RequiredAt(fields, |fields|, n);
        assert MetBy(fields, tags, k);
      }
    }
  }

  /**
   * Among the messages whose records all decode, pb_decode_noinit accepts exactly those in which
   * the tag of each of the first 64 required fields occurred and the last fixed-count array is
   * complete.
   */
  lemma AcceptedIffRequiredPresent(fields: seq<Field>, s: seq<byte>, cells: seq<Cell>)
    requires |cells| == CellCount(fields) && DistinctTags(fields)
    ensures var r := DecLoop(fields, s, Start(cells));
            InShape(fields, Start(cells))
            && (DecMessage(fields, s, cells).Ok?
                <==> r.Ok? && FixedDone(fields, r.value) && AllRequiredIn(fields, TagsRead(fields, s, Start(cells))))
  {
    hide DecLoop, TagsRead, RequiredMet, AllRequiredIn, Noted;
    var r := DecLoop(fields, s, Start(cells));
    if r.Ok? {
      LoopNotes(fields, s, Start(cells));
      AllNotedIsAllRead(fields, TagsRead(fields, s, Start(cells)), r.value.seen);
    }
  }
}
