/** The `messages` table of act.py: `save_message` appends one entry and
    `get_messages` returns the 50 latest entries, oldest first. */
module Messages {
  import opened Rows

  /** `LIMIT 50` in `get_messages`. */
  const WindowSize: nat := 50

  /** One row of `messages(id, user_name, message, timestamp)`. `user_name`
      is whatever the caller passed, NULL included; `timestamp` is the clock
      reading `datetime.now()` gave at the time of the write. */
  datatype Message = Message(id: nat, sender: Option<string>, body: string, timestamp: nat)

  predicate UniqueMessageIds(log: seq<Message>) {
    forall i, j :: 0 <= i < j < |log| ==> log[i].id != log[j].id
  }

  /** `save_message(user_name, message)` with `now` the clock reading: one
      entry carrying exactly the sender, body and time given is appended
      after the existing ones, which are left as they were. */
  function SaveMessage(log: seq<Message>, sender: Option<string>, body: string, now: nat): (r: seq<Message>)
    ensures |r| == |log| + 1 && r[..|log|] == log
    ensures r[|log|].sender == sender && r[|log|].body == body && r[|log|].timestamp == now
    ensures forall i :: 0 <= i < |log| ==> log[i].id < r[|log|].id
  {
    log + [Message(NextRowId(IdsOf(log, (m: Message) => m.id)), sender, body, now)]
  }

  lemma SaveMessageKeepsIdsUnique(log: seq<Message>, sender: Option<string>, body: string, now: nat)
    requires UniqueMessageIds(log)
    ensures UniqueMessageIds(SaveMessage(log, sender, body, now))
  {
  }

  /** `a` is not newer than `b`: `ORDER BY timestamp`, with ties between equal
      timestamps broken by insertion id so that the order is total. */
  predicate NoNewer(a: Message, b: Message) {
    a.timestamp < b.timestamp || (a.timestamp == b.timestamp && a.id <= b.id)
  }

  predicate OldestFirst(s: seq<Message>) {
    forall i, j :: 0 <= i < j < |s| ==> NoNewer(s[i], s[j])
  }

  predicate NewestFirst(s: seq<Message>) {
    forall i, j :: 0 <= i < j < |s| ==> NoNewer(s[j], s[i])
  }

  /** A newest-first sequence stays newest-first with an entry in front that is
      at least as new as all of it. */
  lemma PrependNewestFirst(h: Message, t: seq<Message>)
    requires NewestFirst(t)
    requires forall x :: x in t ==> NoNewer(x, h)
    ensures NewestFirst([h] + t)
  {
    forall i, j | 0 <= i < j < |[h] + t|
      ensures NoNewer(([h] + t)[j], ([h] + t)[i])
    {
      if i == 0 {
        assert ([h] + t)[j] == t[j - 1];
      } else {
        assert ([h] + t)[j] == t[j - 1] && ([h] + t)[i] == t[i - 1];
      }
    }
  }

  /** Puts `m` into a newest-first sequence at its place. */
  function InsertNewestFirst(m: Message, s: seq<Message>): (r: seq<Message>)
    requires NewestFirst(s)
    ensures NewestFirst(r)
    ensures multiset(r) == multiset(s) + multiset{m}
  {
    if |s| == 0 then [m]
    else if NoNewer(s[0], m) then
      PrependNewestFirst(m, s);
      [m] + s
    else
      var tail := s[1..];
      assert s == [s[0]] + tail;
      assert NewestFirst(tail) by {
        forall i, j | 0 <= i < j < |tail| ensures NoNewer(tail[j], tail[i]) {
          assert tail[j] == s[j + 1] && tail[i] == s[i + 1];
        }
      }
      var rest := InsertNewestFirst(m, tail);
      assert forall x :: x in tail ==> NoNewer(x, s[0]);
      forall x | x in rest ensures x in tail || x == m {
        assert x in multiset(rest);
      }
      PrependNewestFirst(s[0], rest);
      [s[0]] + rest
  }

  /** `ORDER BY timestamp DESC` over the whole table. */
  function SortNewestFirst(log: seq<Message>): (r: seq<Message>)
    ensures NewestFirst(r)
    ensures multiset(r) == multiset(log)
  {
    if |log| == 0 then []
    else
      assert log == [log[0]] + log[1..];
      InsertNewestFirst(log[0], SortNewestFirst(log[1..]))
  }

  function Reverse(s: seq<Message>): (r: seq<Message>)
    ensures |r| == |s|
    ensures forall i :: 0 <= i < |s| ==> r[i] == s[|s| - 1 - i]
  {
    if |s| == 0 then [] else Reverse(s[1..]) + [s[0]]
  }

  /** `get_messages()`: the `WindowSize` newest entries (all of them when there
      are no more than that), reversed into oldest-first order. */
  function GetMessages(log: seq<Message>): (r: seq<Message>)
    ensures |r| == if |log| < WindowSize then |log| else WindowSize
    ensures OldestFirst(r)
    ensures multiset(r) <= multiset(log)
    ensures |log| <= WindowSize ==> multiset(r) == multiset(log)
    ensures forall x, y :: x in log && x !in r && y in r ==> NoNewer(x, y)
  {
    var newest := SortNewestFirst(log);
    var k := if |newest| < WindowSize then |newest| else WindowSize;
    var window := newest[..k];
    var r := Reverse(window);
    ReverseKeepsMultiset(window);
    assert forall x :: x in r <==> x in window by {
      forall x ensures x in r <==> x in window {
        assert x in r <==> x in multiset(r);
        assert x in window <==> x in multiset(window);
      }
    }
    assert NewestFirst(window);
    ReverseIsOldestFirst(window);
    WindowHoldsNewest(log, newest, k);
    r
  }

  /** Cutting a newest-first sort of `log` after `k` entries keeps the newest:
      whatever is cut off is no newer than anything kept. */
  lemma WindowHoldsNewest(log: seq<Message>, newest: seq<Message>, k: nat)
    requires NewestFirst(newest) && multiset(newest) == multiset(log)
    requires k <= |newest|
    ensures multiset(newest[..k]) <= multiset(log)
    ensures k == |newest| ==> multiset(newest[..k]) == multiset(log)
    ensures forall x, y :: x in log && x !in newest[..k] && y in newest[..k] ==> NoNewer(x, y)
  {
    assert newest == newest[..k] + newest[k..];
    forall x, y | x in log && x !in newest[..k] && y in newest[..k]
      ensures NoNewer(x, y)
    {
      assert x in multiset(newest);
      var j :| 0 <= j < |newest| && newest[j] == x;
      var i :| 0 <= i < k && newest[..k][i] == y;
      assert j >= k;
      assert newest[i] == y;
    }
  }

  lemma ReverseIsOldestFirst(s: seq<Message>)
    requires NewestFirst(s)
    ensures OldestFirst(Reverse(s))
  {
  }

  lemma {:induction false} ReverseKeepsMultiset(s: seq<Message>)
    ensures multiset(Reverse(s)) == multiset(s)
  {
    if |s| > 0 {
      ReverseKeepsMultiset(s[1..]);
      assert s == [s[0]] + s[1..];
    }
  }

  /** An entry strictly newer than every other entry of the table is the last
      one `get_messages` shows. */
  lemma NewestShownLast(log: seq<Message>, m: Message)
    requires m in log
    requires forall x :: x in log && x != m ==> !NoNewer(m, x)
    ensures |GetMessages(log)| > 0 && GetMessages(log)[|GetMessages(log)| - 1] == m
  {
    var shown := GetMessages(log);
    assert |shown| > 0;
    var last := shown[|shown| - 1];
    assert last in multiset(shown);
    assert last in log;
    assert m in shown || NoNewer(m, last);
    assert m in shown;
    var i :| 0 <= i < |shown| && shown[i] == m;
    assert i < |shown| - 1 ==> NoNewer(m, last);
  }

  /** An entry written at a clock reading no earlier than any entry already
      stored is the last one `get_messages` shows afterwards. */
  lemma SavedMessageShownLast(log: seq<Message>, sender: Option<string>, body: string, now: nat)
    requires forall i :: 0 <= i < |log| ==> log[i].timestamp <= now
    ensures var after := SaveMessage(log, sender, body, now);
            var shown := GetMessages(after);
            |shown| > 0 && shown[|shown| - 1] == after[|log|]
  {
    var after := SaveMessage(log, sender, body, now);
    var m := after[|log|];
    assert after == log + [m];
    forall x | x in after && x != m
      ensures !NoNewer(m, x)
    {
      var i :| 0 <= i < |after| && after[i] == x;
      assert i < |log|;
    }
    NewestShownLast(after, m);
  }
}
