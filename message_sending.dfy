/** `/send_message`: posting the category picker in a channel and recording
    the message in messages.json, so that `load_guilds` re-attaches it. */
module MessageSending {
  import opened Utils
  import opened Builtins
  import opened RoleAssignment

  /** `data[k] = v`: a present key keeps its place and takes the new value;
      a new key goes at the end. */
  function Put(d: Registry, k: string, v: int): Registry
  {
    if d == [] then [(k, v)]
    else if d[0].0 == k then [(k, v)] + d[1..]
    else [d[0]] + Put(d[1..], k, v)
  }

  /** The new entry is present, and entries with other keys are those of before. */
  lemma {:induction false} PutMembers(d: Registry, k: string, v: int)
    ensures (k, v) in Put(d, k, v)
    ensures forall kv: (string, int) :: kv.0 != k ==> (kv in Put(d, k, v) <==> kv in d)
  {
    if d != [] {
      PutMembers(d[1..], k, v);
      assert d == [d[0]] + d[1..];
    }
  }

  /** A new key is appended; a present key keeps every key in place. */
  lemma {:induction false} PutShape(d: Registry, k: string, v: int)
    ensures !HasKey(d, k) ==> Put(d, k, v) == d + [(k, v)]
    ensures HasKey(d, k) ==> |Put(d, k, v)| == |d| && forall i :: 0 <= i < |d| ==> Put(d, k, v)[i].0 == d[i].0
  {
    if d != [] {
      PutShape(d[1..], k, v);
      assert d == [d[0]] + d[1..];
      if d[0].0 != k {
        var t := Put(d[1..], k, v);
        assert HasKey(d, k) == HasKey(d[1..], k) by {
          if i :| 0 <= i < |d[1..]| && d[1..][i].0 == k {
            assert d[i + 1].0 == k;
          }
          if i :| 0 <= i < |d| && d[i].0 == k {
            assert d[1..][i - 1].0 == k;
          }
        }
        if HasKey(d, k) {
          forall i | 0 <= i < |d| ensures Put(d, k, v)[i].0 == d[i].0 {
            if i > 0 {
              assert Put(d, k, v)[i] == t[i - 1] && d[i] == d[1..][i - 1];
            }
          }
        }
      } else {
        assert HasKey(d, k) by {
          assert d[0].0 == k;
        }
      }
    }
  }

  /** Distinct keys stay distinct, and canonical keys canonical. */
  lemma PutKeepsKeys(d: Registry, k: string, v: int)
    ensures DistinctKeys(d) ==> DistinctKeys(Put(d, k, v))
    ensures AllCanonical(d) && Canonical(k) ==> AllCanonical(Put(d, k, v))
  {
    PutShape(d, k, v);
    var r := Put(d, k, v);
    if HasKey(d, k) {
      forall i | 0 <= i < |r| ensures KeyAt(r, i) == KeyAt(d, i) {
      }
    } else {
      forall i | 0 <= i < |r| ensures KeyAt(r, i) == if i < |d| then KeyAt(d, i) else k {
      }
      if DistinctKeys(d) {
        forall i | 0 <= i < |d| ensures KeyAt(d, i) != k {
        }
      }
    }
  }

  /** Posting again in the same channel replaces the recorded message. */
  lemma {:induction false} PutTwice(d: Registry, k: string, v1: int, v2: int)
    ensures Put(Put(d, k, v1), k, v2) == Put(d, k, v2)
  {
    if d != [] && d[0].0 != k {
      PutTwice(d[1..], k, v1, v2);
    }
  }

  /** How the modal's submission ends: recorded, the `send` call raised, or
      the message was posted but messages.json was not valid JSON. */
  datatype SubmitOutcome = Recorded | SendFailed | FileMalformed

  /** `MessageModal.on_submit` for the modal's channel; `sent` is the id of
      the posted message, None when `channel.send` raised. */
  function OnSubmitSpec(file: RegistryFile, channelId: nat, sent: Option<int>): (RegistryFile, SubmitOutcome)
  {
    match sent
    case None => (file, SendFailed)
    case Some(m) =>
      match file
      case Malformed => (file, FileMalformed)
      case Absent => (Stored(Put([], IntToString(channelId), m)), Recorded)
      case Stored(d) => (Stored(Put(d, IntToString(channelId), m)), Recorded)
  }

  /** `MessageModal.on_submit`. */
  method OnSubmit(file: RegistryFile, channelId: nat, sent: Option<int>) returns (written: RegistryFile, outcome: SubmitOutcome)
    ensures (written, outcome) == OnSubmitSpec(file, channelId, sent)
  {
    if sent.None? {
      return file, SendFailed;
    }
    var data: Registry;
    if file.Malformed? {
      return file, FileMalformed;
    } else if file.Absent? {
      data := [];
    } else {
      data := file.data;
    }
    data := Put(data, IntToString(channelId), sent.value);
    return Stored(data), Recorded;
  }

  /** The text `str(channel_id)` is a key `load_guilds` reads back as the same channel. */
  lemma ChannelKeyCanonical(channelId: nat)
    ensures Canonical(IntToString(channelId))
    ensures ParseInt(IntToString(channelId)) == Some(channelId)
  {
    ParseIntToString(channelId);
  }

  /** A submission records the posted message under the channel's key and
      keeps every other entry; a failed send or an unreadable file leaves the
      file as it was; distinct, canonical keys stay so. */
  lemma OnSubmitRecords(file: RegistryFile, channelId: nat, sent: Option<int>)
    ensures var (written, outcome) := OnSubmitSpec(file, channelId, sent);
      && (outcome == Recorded <==> sent.Some? && !file.Malformed?)
      && (outcome != Recorded ==> written == file)
      && (outcome == Recorded ==>
            && written.Stored?
            && (IntToString(channelId), sent.value) in written.data
            && (forall kv: (string, int) :: kv.0 != IntToString(channelId) ==>
                  (kv in written.data <==> file.Stored? && kv in file.data))
            && (file.Absent? || (DistinctKeys(file.data) && AllCanonical(file.data)) ==>
                  DistinctKeys(written.data) && AllCanonical(written.data)))
  {
    ChannelKeyCanonical(channelId);
    if sent.Some? {
      var d := if file.Stored? then file.data else [];
      PutMembers(d, IntToString(channelId), sent.value);
      PutKeepsKeys(d, IntToString(channelId), sent.value);
    }
  }

  lemma {:induction false} AttachmentsHas(s: Registry, kv: (string, int))
    requires kv in s
    ensures (match ParseInt(kv.0) case Some(n) => n case None => 0, kv.1) in Attachments(s)
  {
    var init := s[..|s| - 1];
    assert s == init + [s[|s| - 1]];
    if kv != s[|s| - 1] {
      AttachmentsHas(init, kv);
    }
  }

  /** What `/send_message` records, `load_guilds` re-attaches: after a
      recorded submission to a well-formed file, a startup run on which no
      channel or message raises, and which reaches this channel and message,
      attaches the message to its channel. */
  lemma SubmitThenLoad(file: RegistryFile, channelId: nat, m: int, channel: int -> Fetch, edit: (int, int) -> Fetch)
    requires file.Absent? || (file.Stored? && DistinctKeys(file.data) && AllCanonical(file.data))
    requires channel(channelId) == Fetched && edit(channelId, m) == Fetched
    ensures var (written, outcome) := OnSubmitSpec(file, channelId, Some(m));
      && outcome == Recorded
      && ((forall i :: 0 <= i < |written.data| ==> !Breaks(written.data[i], channel, edit)) ==>
            var (kept, attached, loaded) := LoadGuildsSpec(written, channel, edit);
            loaded == Done && (channelId, m) in attached && (IntToString(channelId), m) in kept)
  {
    var (written, outcome) := OnSubmitSpec(file, channelId, Some(m));
    OnSubmitRecords(file, channelId, Some(m));
    ChannelKeyCanonical(channelId);
    var d := written.data;
    if forall i :: 0 <= i < |d| ==> !Breaks(d[i], channel, edit) {
      var bp := BreaksBy(channel, edit);
      var kp := KeptBy(channel, edit);
      LoadGuildsCanonical(d, channel, edit);
      assert First(d, bp).None?;
      assert d[..|d|] == d;
      FilterMembers(d, kp);
      assert Kept((IntToString(channelId), m), channel, edit);
      AttachmentsHas(Filter(d, kp), (IntToString(channelId), m));
    }
  }
}
