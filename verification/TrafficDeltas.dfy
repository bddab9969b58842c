/** Traffic accounting: the delta loop of `XrayAPI.GetTraffic` with `processTraffic` and
    `processClientTraffic`. */
module TrafficDeltas {

  /** A statistic by its parsed name. */
  datatype Name = Tag(inbound: bool, tag: string, down: bool) | User(email: string, down: bool) | Unknown(text: string)

  datatype Stat = Stat(name: Name, value: int)

  datatype Traffic = Traffic(isInbound: bool, up: int, down: int)

  datatype ClientTraffic = ClientTraffic(up: int, down: int)

  /** Whether a statistic is counted, and how much of it. */
  predicate Counts(last: map<Name, int>, s: Stat) { s.name in last && s.value >= last[s.name] }

  function Delta(last: map<Name, int>, s: Stat): (d: int)
    ensures d >= 0
  {
    if Counts(last, s) then s.value - last[s.name] else 0
  }

  /** `processTraffic`. */
  function AddTag(t: map<string, Traffic>, n: Name, value: int): map<string, Traffic>
    requires n.Tag?
  {
    if n.tag == "api" then t
    else
      var r := if n.tag in t then t[n.tag] else Traffic(n.inbound, 0, 0);
      t[n.tag := if n.down then r.(down := value) else r.(up := value)]
  }

  /** `processClientTraffic`. */
  function AddUser(t: map<string, ClientTraffic>, n: Name, value: int): map<string, ClientTraffic>
    requires n.User?
  {
    var r := if n.email in t then t[n.email] else ClientTraffic(0, 0);
    t[n.email := if n.down then r.(down := value) else r.(up := value)]
  }

  /** The last values after the first n statistics of a poll. */
  function LastAfter(last: map<Name, int>, stats: seq<Stat>, n: nat): map<Name, int>
    requires n <= |stats|
  {
    if n == 0 then last else LastAfter(last, stats, n - 1)[stats[n - 1].name := stats[n - 1].value]
  }

  function TagsAfter(last: map<Name, int>, stats: seq<Stat>, n: nat): map<string, Traffic>
    requires n <= |stats|
  {
    if n == 0 then map[]
    else
      var t, m, s := TagsAfter(last, stats, n - 1), LastAfter(last, stats, n - 1), stats[n - 1];
      if s.name.Tag? && Counts(m, s) then AddTag(t, s.name, Delta(m, s)) else t
  }

  function UsersAfter(last: map<Name, int>, stats: seq<Stat>, n: nat): map<string, ClientTraffic>
    requires n <= |stats|
  {
    if n == 0 then map[]
    else
      var t, m, s := UsersAfter(last, stats, n - 1), LastAfter(last, stats, n - 1), stats[n - 1];
      if s.name.User? && Counts(m, s) then AddUser(t, s.name, Delta(m, s)) else t
  }

  class XrayApi {
    var statsLastValues: map<Name, int>

    constructor ()
      ensures statsLastValues == map[]
    {
      statsLastValues := map[];
    }

    /** `GetTraffic`, from the statistics of one answer to the two tables. */
    method GetTraffic(stats: seq<Stat>) returns (tags: map<string, Traffic>, users: map<string, ClientTraffic>)
      modifies this
      ensures statsLastValues == LastAfter(old(statsLastValues), stats, |stats|)
      ensures tags == TagsAfter(old(statsLastValues), stats, |stats|)
      ensures users == UsersAfter(old(statsLastValues), stats, |stats|)
    {
      tags, users := map[], map[];
      for i := 0 to |stats|
        invariant statsLastValues == LastAfter(old(statsLastValues), stats, i)
        invariant tags == TagsAfter(old(statsLastValues), stats, i)
        invariant users == UsersAfter(old(statsLastValues), stats, i)
      {
        var stat := stats[i];
        var known := stat.name in statsLastValues;
        var lastValue := if known then statsLastValues[stat.name] else 0;
        statsLastValues := statsLastValues[stat.name := stat.value];
        if known && stat.value >= lastValue {
          var value := stat.value - lastValue;
          match stat.name {
            case Tag(_, _, _) => tags := AddTag(tags, stat.name, value);
            case User(_, _) => users := AddUser(users, stat.name, value);
            case Unknown(_) =>
          }
        }
      }
    }
  }

  // ---------- one poll ----------

  ghost predicate UniqueNames(stats: seq<Stat>) {
    forall i, j :: 0 <= i < j < |stats| ==> stats[i].name != stats[j].name
  }

  lemma {:induction false} LastOfOthers(last: map<Name, int>, stats: seq<Stat>, n: nat, name: Name)
    requires n <= |stats| && forall i :: 0 <= i < n ==> stats[i].name != name
    ensures name in LastAfter(last, stats, n) <==> name in last
    ensures name in last ==> LastAfter(last, stats, n)[name] == last[name]
  {
    if n > 0 { LastOfOthers(last, stats, n - 1, name); }
  }

  /** With unique names every delta of a poll is measured from the previous poll. */
  lemma DeltaInPoll(last: map<Name, int>, stats: seq<Stat>, i: nat)
    requires i < |stats| && UniqueNames(stats)
    ensures Delta(LastAfter(last, stats, i), stats[i]) == Delta(last, stats[i])
    ensures Counts(LastAfter(last, stats, i), stats[i]) <==> Counts(last, stats[i])
  {
    LastOfOthers(last, stats, i, stats[i].name);
  }

  /** Two statistics that write one field of one record: an inbound and an outbound of one tag. */
  ghost predicate SharesField(a: Name, b: Name) { a.Tag? && b.Tag? && a.tag == b.tag && a.down == b.down }

  /** What the table of a poll shows for a statistic of a tag. */
  function Shown(t: map<string, Traffic>, name: Name): int
    requires name.Tag? && name.tag in t
  {
    if name.down then t[name.tag].down else t[name.tag].up
  }

  /** A counted statistic is reported in full, unless a later counted one writes the same field. */
  lemma {:induction false} TagReported(last: map<Name, int>, stats: seq<Stat>, i: nat, n: nat)
    requires i < n <= |stats| && UniqueNames(stats)
    requires stats[i].name.Tag? && stats[i].name.tag != "api" && Counts(last, stats[i])
    requires forall j :: i < j < n && SharesField(stats[i].name, stats[j].name) ==> !Counts(last, stats[j])
    ensures var t := TagsAfter(last, stats, n);
            stats[i].name.tag in t
            && Shown(t, stats[i].name) == Delta(last, stats[i])
  {
    DeltaInPoll(last, stats, n - 1);
    if i < n - 1 { TagReported(last, stats, i, n - 1); }
  }

  lemma {:induction false} UserReported(last: map<Name, int>, stats: seq<Stat>, i: nat, n: nat)
    requires i < n <= |stats| && UniqueNames(stats) && stats[i].name.User? && Counts(last, stats[i])
    ensures var t := UsersAfter(last, stats, n);
            stats[i].name.email in t
            && (if stats[i].name.down then t[stats[i].name.email].down else t[stats[i].name.email].up)
                == Delta(last, stats[i])
  {
    DeltaInPoll(last, stats, n - 1);
    if i < n - 1 { UserReported(last, stats, i, n - 1); }
  }

  /** j is the last counted statistic below n that writes the field of i. */
  ghost predicate IsLastWriter(last: map<Name, int>, stats: seq<Stat>, i: nat, j: nat, n: nat)
    requires n <= |stats|
  {
    && i <= j < n && SharesField(stats[i].name, stats[j].name) && Counts(last, stats[j])
    && (forall k :: j < k < n && SharesField(stats[j].name, stats[k].name) ==> !Counts(last, stats[k]))
  }

  lemma {:induction false} LastWriter(last: map<Name, int>, stats: seq<Stat>, i: nat, n: nat) returns (j: nat)
    requires i < n <= |stats| && stats[i].name.Tag? && Counts(last, stats[i])
    ensures IsLastWriter(last, stats, i, j, n)
  {
    var x := stats[n - 1];
    if n == i + 1 || (SharesField(stats[i].name, x.name) && Counts(last, x)) {
      j := n - 1;
    } else {
      j := LastWriter(last, stats, i, n - 1);
    }
  }

  /** The field of a counted statistic shows the delta of its last writer, so it shows its own delta
      exactly if the two are equal. */
  lemma FieldShowsLastWriter(last: map<Name, int>, stats: seq<Stat>, i: nat, j: nat, n: nat)
    requires n <= |stats| && UniqueNames(stats) && i < n && Counts(last, stats[i])
    requires IsLastWriter(last, stats, i, j, n) && stats[i].name.tag != "api"
    ensures var t := TagsAfter(last, stats, n);
            stats[i].name.tag in t
            && (Shown(t, stats[i].name) == Delta(last, stats[i]) <==> Delta(last, stats[i]) == Delta(last, stats[j]))
  {
    TagReported(last, stats, j, n);
  }

  ghost predicate IsShown(last: map<Name, int>, stats: seq<Stat>, i: nat)
    requires i < |stats| && stats[i].name.Tag?
  {
    var t := TagsAfter(last, stats, |stats|);
    stats[i].name.tag in t && Shown(t, stats[i].name) == Delta(last, stats[i])
  }

  /** Every counted statistic of a tag other than `api` is reported in full. */
  ghost predicate AllShown(last: map<Name, int>, stats: seq<Stat>) {
    forall i :: 0 <= i < |stats| && stats[i].name.Tag? && stats[i].name.tag != "api" && Counts(last, stats[i]) ==>
      IsShown(last, stats, i)
  }

  /** Both statistics count and write one field. */
  ghost predicate BothWrite(last: map<Name, int>, a: Stat, b: Stat) {
    SharesField(a.name, b.name) && a.name.tag != "api" && Counts(last, a) && Counts(last, b)
  }

  /** No inbound and outbound of one tag count different numbers of bytes in one direction. */
  ghost predicate SharersAgree(last: map<Name, int>, stats: seq<Stat>) {
    forall i, j :: 0 <= i < j < |stats| && BothWrite(last, stats[i], stats[j]) ==>
      Delta(last, stats[i]) == Delta(last, stats[j])
  }

  /** A poll reports every tag in full exactly if shared tags count the same. */
  lemma AllShownExactly(last: map<Name, int>, stats: seq<Stat>)
    requires UniqueNames(stats)
    ensures AllShown(last, stats) <==> SharersAgree(last, stats)
  {
    forall i | 0 <= i < |stats| && stats[i].name.Tag? && stats[i].name.tag != "api" && Counts(last, stats[i])
      ensures SharersAgree(last, stats) ==> IsShown(last, stats, i)
    {
      var j := LastWriter(last, stats, i, |stats|);
      FieldShowsLastWriter(last, stats, i, j, |stats|);
    }
    if AllShown(last, stats) {
      forall i, j | 0 <= i < j < |stats| && BothWrite(last, stats[i], stats[j])
        ensures Delta(last, stats[i]) == Delta(last, stats[j])
      {
        assert IsShown(last, stats, i) && IsShown(last, stats, j);
      }
    }
  }

  /** It does happen that an inbound and an outbound of one tag hide each other's bytes. */
  lemma SharedTagHides()
    ensures var last := map[Tag(true, "a", true) := 0, Tag(false, "a", true) := 0];
            var stats := [Stat(Tag(true, "a", true), 10), Stat(Tag(false, "a", true), 3)];
            UniqueNames(stats) && TagsAfter(last, stats, 2) == map["a" := Traffic(true, 0, 3)]
  {
    var last := map[Tag(true, "a", true) := 0, Tag(false, "a", true) := 0];
    var stats := [Stat(Tag(true, "a", true), 10), Stat(Tag(false, "a", true), 3)];
    DeltaInPoll(last, stats, 0);
    DeltaInPoll(last, stats, 1);
    assert TagsAfter(last, stats, 0) == map[];
    assert TagsAfter(last, stats, 1) == map["a" := Traffic(true, 0, 10)];
  }

  // ---------- any number of polls ----------

  /** One reading of a counter, with what only the observed program knows: the bytes counted since
      the previous reading of that counter, and whether the program restarted in between. */
  datatype Reading = Reading(name: Name, value: int, counted: int, restarted: bool)

  function StatOf(r: Reading): Stat { Stat(r.name, r.value) }

  /** The last values after the first n readings, polls following one another. */
  function LastOf(rs: seq<Reading>, n: nat): map<Name, int>
    requires n <= |rs|
  {
    if n == 0 then map[] else LastOf(rs, n - 1)[rs[n - 1].name := rs[n - 1].value]
  }

  function Reported(rs: seq<Reading>, name: Name, n: nat): int
    requires n <= |rs|
  {
    if n == 0 then 0
    else Reported(rs, name, n - 1) + if rs[n - 1].name == name then Delta(LastOf(rs, n - 1), StatOf(rs[n - 1])) else 0
  }

  function Counted(rs: seq<Reading>, name: Name, n: nat): int
    requires n <= |rs|
  {
    if n == 0 then 0 else Counted(rs, name, n - 1) + if rs[n - 1].name == name then rs[n - 1].counted else 0
  }

  /** What a counter can do between readings: grow by what was counted, or start again from 0 at a
      restart and show at most what was counted. */
  ghost predicate IsCounter(rs: seq<Reading>, name: Name) {
    forall n :: 0 <= n < |rs| && rs[n].name == name ==>
      && 0 <= rs[n].value && 0 <= rs[n].counted
      && (if name in LastOf(rs, n) && !rs[n].restarted then rs[n].value == LastOf(rs, n)[name] + rs[n].counted
          else rs[n].value <= rs[n].counted)
  }

  lemma {:induction false} LastIsReading(rs: seq<Reading>, n: nat, name: Name)
    requires n <= |rs| && IsCounter(rs, name)
    ensures name in LastOf(rs, n) ==> LastOf(rs, n)[name] >= 0
  {
    if n > 0 { LastIsReading(rs, n - 1, name); }
  }

  /** Over any polls and any restarts the reported sum is natural and never exceeds the bytes that
      were counted. */
  lemma {:induction false} NeverOverReported(rs: seq<Reading>, name: Name, n: nat)
    requires n <= |rs| && IsCounter(rs, name)
    ensures 0 <= Reported(rs, name, n) <= Counted(rs, name, n)
  {
    if n > 0 {
      NeverOverReported(rs, name, n - 1);
      LastIsReading(rs, n - 1, name);
    }
  }

  lemma {:induction false} NothingBefore(rs: seq<Reading>, name: Name, n: nat)
    requires n <= |rs| && forall i :: 0 <= i < n ==> rs[i].name != name
    ensures name !in LastOf(rs, n) && Reported(rs, name, n) == 0
  {
    if n > 0 { NothingBefore(rs, name, n - 1); }
  }

  /** Without restarts the deltas telescope: last value minus first observed value. */
  lemma {:induction false} Telescopes(rs: seq<Reading>, name: Name, first: nat, n: nat)
    requires first < n <= |rs| && IsCounter(rs, name) && rs[first].name == name
    requires forall i :: 0 <= i < first ==> rs[i].name != name
    requires forall i :: 0 <= i < n && rs[i].name == name ==> !rs[i].restarted
    ensures name in LastOf(rs, n) && Reported(rs, name, n) == LastOf(rs, n)[name] - rs[first].value
  {
    if n == first + 1 {
      NothingBefore(rs, name, first);
    } else {
      Telescopes(rs, name, first, n - 1);
    }
  }

  // ---------- the tables and the sums ----------

  /** The readings of one poll, as the statistics GetTraffic sees. */
  function Poll(rs: seq<Reading>, from: nat, size: nat): seq<Stat>
    requires from + size <= |rs|
  {
    seq(size, i requires 0 <= i < size => StatOf(rs[from + i]))
  }

  /** The last values GetTraffic keeps from poll to poll are those of the readings in order. */
  lemma {:induction false} PollContinues(rs: seq<Reading>, from: nat, size: nat, n: nat)
    requires from + size <= |rs| && n <= size
    ensures LastAfter(LastOf(rs, from), Poll(rs, from, size), n) == LastOf(rs, from + n)
  {
    if n > 0 {
      PollContinues(rs, from, size, n - 1);
      assert Poll(rs, from, size)[n - 1] == StatOf(rs[from + n - 1]);
      assert from + n - 1 == from + (n - 1);
    }
  }

  /** One poll adds to the reported sum of a counter exactly the delta of its one statistic. */
  lemma {:induction false} PollAdds(rs: seq<Reading>, from: nat, size: nat, i: nat, n: nat)
    requires from + size <= |rs| && i < size && n <= size && UniqueNames(Poll(rs, from, size))
    ensures var stats := Poll(rs, from, size);
            Reported(rs, stats[i].name, from + n)
            == Reported(rs, stats[i].name, from) + if i < n then Delta(LastOf(rs, from), stats[i]) else 0
  {
    if n > 0 {
      PollAdds(rs, from, size, i, n - 1);
      var stats := Poll(rs, from, size);
      PollContinues(rs, from, size, n - 1);
      DeltaInPoll(LastOf(rs, from), stats, n - 1);
      assert stats[n - 1] == StatOf(rs[from + n - 1]) && (n - 1 != i ==> stats[n - 1].name != stats[i].name);
    }
  }

  /** So the table a poll returns for a client holds what the poll adds to that client's sum. */
  lemma TableIsReported(rs: seq<Reading>, from: nat, size: nat, i: nat)
    requires from + size <= |rs| && i < size && UniqueNames(Poll(rs, from, size))
    requires Poll(rs, from, size)[i].name.User? && Counts(LastOf(rs, from), Poll(rs, from, size)[i])
    ensures var stats := Poll(rs, from, size);
            var name, t := stats[i].name, UsersAfter(LastOf(rs, from), stats, size);
            name.email in t
            && (if name.down then t[name.email].down else t[name.email].up)
                == Reported(rs, name, from + size) - Reported(rs, name, from)
  {
    PollAdds(rs, from, size, i, size);
    UserReported(LastOf(rs, from), Poll(rs, from, size), i, size);
  }

  /** For a tag it holds what the poll adds to that counter's sum exactly if the last writer of the
      field counted as much. */
  lemma TagTableIsReported(rs: seq<Reading>, from: nat, size: nat, i: nat, j: nat)
    requires from + size <= |rs| && i < size && UniqueNames(Poll(rs, from, size))
    requires Counts(LastOf(rs, from), Poll(rs, from, size)[i])
    requires IsLastWriter(LastOf(rs, from), Poll(rs, from, size), i, j, size)
    requires Poll(rs, from, size)[i].name.tag != "api"
    ensures var last, stats := LastOf(rs, from), Poll(rs, from, size);
            var name, t := stats[i].name, TagsAfter(last, stats, size);
            name.tag in t
            && (Shown(t, name) == Reported(rs, name, from + size) - Reported(rs, name, from)
                <==> Delta(last, stats[i]) == Delta(last, stats[j]))
  {
    PollAdds(rs, from, size, i, size);
    FieldShowsLastWriter(LastOf(rs, from), Poll(rs, from, size), i, j, size);
  }

  // ---------- what a table of tags holds ----------

  /** Statistic i counts for the tag. */
  ghost predicate CountsFor(last: map<Name, int>, s: Stat, tag: string) {
    s.name.Tag? && s.name.tag == tag && Counts(last, s)
  }

  /** Statistic i is the first one counted for the tag, and it says whether the tag is an inbound. */
  ghost predicate IsNamedBy(last: map<Name, int>, stats: seq<Stat>, i: nat, n: nat, tag: string, inbound: bool)
    requires n <= |stats|
  {
    && i < n && CountsFor(last, stats[i], tag) && stats[i].name.inbound == inbound
    && (forall j :: 0 <= j < i ==> !CountsFor(last, stats[j], tag))
  }

  /** A tag is in the table exactly if it is not `api` and something was counted for it, and it is
      called an inbound exactly if the first statistic counted for it is of an inbound. */
  lemma {:induction false} TagsExactly(last: map<Name, int>, stats: seq<Stat>, n: nat, tag: string)
    requires n <= |stats| && UniqueNames(stats)
    ensures var t := TagsAfter(last, stats, n);
            && (tag in t <==> tag != "api" && exists i :: 0 <= i < n && CountsFor(last, stats[i], tag))
            && (tag in t ==> exists i: nat :: IsNamedBy(last, stats, i, n, tag, t[tag].isInbound))
  {
    if n > 0 {
      TagsExactly(last, stats, n - 1, tag);
      DeltaInPoll(last, stats, n - 1);
      var t, u := TagsAfter(last, stats, n - 1), TagsAfter(last, stats, n);
      if tag in t {
        var i: nat :| IsNamedBy(last, stats, i, n - 1, tag, t[tag].isInbound);
        assert IsNamedBy(last, stats, i, n, tag, u[tag].isInbound);
      } else if tag in u {
        assert IsNamedBy(last, stats, n - 1, n, tag, u[tag].isInbound);
      }
    }
  }
}
