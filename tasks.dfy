/**
 * The task index, class `Tasks` of src/Calendar.ts: a fixed list of tasks and three
 * queries on it. A query date is optional (`date?: string`); `None` stands for an
 * absent or empty date string.
 */
module Tasks {
  import opened Types
  import opened JsDate
  import opened Helper

  /** The tasks of `items` whose date string is `key`, in their original order. */
  function DatedOn(items: seq<Task>, key: string): (r: seq<Task>)
    ensures |r| <= |items|
    ensures forall t :: t in r <==> t in items && t.date == key
  {
    if items == [] then []
    else if items[0].date == key then [items[0]] + DatedOn(items[1..], key)
    else DatedOn(items[1..], key)
  }

  /** The tasks of `ts` whose status is EMERGENCY, in their original order. */
  function Emergencies(ts: seq<Task>): (r: seq<Task>)
    ensures |r| <= |ts|
    ensures forall t :: t in r <==> t in ts && t.status == Emergency
  {
    if ts == [] then []
    else if ts[0].status == Emergency then [ts[0]] + Emergencies(ts[1..])
    else Emergencies(ts[1..])
  }

  /** The positions in `items` of the tasks dated `key`, counted from `from`. */
  function Positions(items: seq<Task>, key: string, from: nat): (idx: seq<nat>)
    requires from <= |items|
    ensures forall k :: 0 <= k < |idx| ==> from <= idx[k] < |items| && items[idx[k]].date == key
    ensures forall j :: from <= j < |items| && items[j].date == key ==> j in idx
    ensures forall k, l :: 0 <= k < l < |idx| ==> idx[k] < idx[l]
    decreases |items| - from
  {
    if from == |items| then []
    else if items[from].date == key then [from] + Positions(items, key, from + 1)
    else Positions(items, key, from + 1)
  }

  datatype TaskIndex = TaskIndex(items: seq<Task>) {

    /** getTasks: the tasks dated on `date`; none when the date is absent. */
    function GetTasks(date: Option<Date>): (r: seq<Task>)
      ensures date.None? ==> r == []
      ensures date.Some? ==> forall t :: t in r <==> t in items && t.date == FormatDate(date.value)
    {
      match date
      case None => []
      case Some(d) => DatedOn(items, FormatDate(d))
    }

    /** haveTask: some task is dated on `date`. */
    function HaveTask(date: Option<Date>): (b: bool)
      ensures b <==> date.Some? && exists i :: 0 <= i < |items| && items[i].date == FormatDate(date.value)
    {
      if |GetTasks(date)| > 0 then
        var t := GetTasks(date)[0];
        assert t in GetTasks(date);
        true
      else
        assert date.Some? ==> forall i :: 0 <= i < |items| ==> items[i] !in GetTasks(date);
        false
    }

    /** haveEmergency: some task dated on `date` has status EMERGENCY. */
    function HaveEmergency(date: Option<Date>): (b: bool)
      ensures b <==> date.Some? && (exists i :: 0 <= i < |items| &&
                                      items[i].date == FormatDate(date.value) && items[i].status == Emergency)
      ensures b ==> HaveTask(date)
    {
      var e := Emergencies(GetTasks(date));
      if |e| > 0 then
        EmergencyAt(this, date, e[0]);
        true
      else
        assert date.Some? ==> forall i :: 0 <= i < |items| ==> items[i] !in e;
        false
    }
  }

  lemma EmergencyAt(index: TaskIndex, date: Option<Date>, t: Task)
    requires t in Emergencies(index.GetTasks(date))
    ensures date.Some? && exists i :: 0 <= i < |index.items| && index.items[i] == t &&
                                      t.date == FormatDate(date.value) && t.status == Emergency
  {
    EmergencyIn(index.GetTasks(date), t);
    ListedIn(index, date, t);
  }

  lemma EmergencyIn(ts: seq<Task>, t: Task)
    requires t in Emergencies(ts)
    ensures t in ts && t.status == Emergency
  {
  }

  lemma ListedIn(index: TaskIndex, date: Option<Date>, t: Task)
    requires t in index.GetTasks(date)
    ensures date.Some? && exists i :: 0 <= i < |index.items| && index.items[i] == t &&
                                      t.date == FormatDate(date.value)
  {
    assert date.Some?;
    assert t in index.items;
    var i :| 0 <= i < |index.items| && index.items[i] == t;
  }

  /** The hard-coded sample list of src/Calendar.ts: four tasks, the second an emergency. */
  function SampleTasks(): (index: TaskIndex)
    ensures |index.items| == 4
    ensures forall i :: 0 <= i < |index.items| ==> (index.items[i].status == Emergency <==> i == 1)
  {
    TaskIndex([
      Task("2022-06-12", ["Have Meeting", "Develop a project"], Normal),
      Task("2022-06-13", ["Write Document", "Finish the project"], Emergency),
      Task("2022-06-25", ["learn TypeScript"], Normal),
      Task("2022-07-07", ["learn Vue3"], Normal)
    ])
  }
}

/** The filters of the task index: order, positions, and the sample list worked out. */
module TaskLemmas {
  import opened Types
  import opened JsDate
  import opened Helper
  import opened Tasks
  import Decimal

  /** Filtering distributes over concatenation: the order of the tasks is kept. */
  lemma {:induction false} DatedOnAppend(a: seq<Task>, b: seq<Task>, key: string)
    ensures DatedOn(a + b, key) == DatedOn(a, key) + DatedOn(b, key)
  {
    if a == [] {
      assert a + b == b;
    } else {
      assert (a + b)[0] == a[0];
      assert (a + b)[1..] == a[1..] + b;
      DatedOnAppend(a[1..], b, key);
    }
  }

  /** Putting item i in front of a selection keeps it a selection at the listed positions. */
  lemma PickedInFront(items: seq<Task>, i: nat, picked: seq<Task>, idx: seq<nat>)
    requires i < |items|
    requires |picked| == |idx| && forall k :: 0 <= k < |idx| ==> idx[k] < |items| && picked[k] == items[idx[k]]
    ensures var r, p := [items[i]] + picked, [i] + idx;
      |r| == |p| && forall k :: 0 <= k < |p| ==> r[k] == items[p[k]]
  {
  }

  /** `DatedOn` picks out exactly the tasks at the matching positions, in ascending order. */
  lemma {:induction false} DatedOnAtPositions(items: seq<Task>, key: string, from: nat)
    requires from <= |items|
    ensures var idx := Positions(items, key, from);
      |DatedOn(items[from..], key)| == |idx|
      && forall k :: 0 <= k < |idx| ==> DatedOn(items[from..], key)[k] == items[idx[k]]
    decreases |items| - from
  {
    if from < |items| {
      var rest := items[from..];
      assert rest[0] == items[from] && rest[1..] == items[from + 1..];
      DatedOnAtPositions(items, key, from + 1);
      var tail, idx := DatedOn(items[from + 1..], key), Positions(items, key, from + 1);
      if items[from].date == key {
        assert DatedOn(rest, key) == [items[from]] + tail;
        assert Positions(items, key, from) == [from] + idx;
        PickedInFront(items, from, tail, idx);
      } else {
        assert DatedOn(rest, key) == tail;
        assert Positions(items, key, from) == idx;
      }
    }
  }

  /** getTasks is the order-preserving filter: the matching tasks at ascending positions. */
  lemma GetTasksIsOrderedFilter(index: TaskIndex, d: Date)
    ensures var r := index.GetTasks(Some(d));
      var idx := Positions(index.items, FormatDate(d), 0);
      |r| == |idx| && forall k :: 0 <= k < |idx| ==> r[k] == index.items[idx[k]]
  {
    DatedOnAtPositions(index.items, FormatDate(d), 0);
    assert index.items[0..] == index.items;
  }

  /** For a task dated by a valid date, matching the string is matching the calendar date. */
  lemma MatchesCalendarDate(index: TaskIndex, d: Date, e: Date, todo: seq<string>, status: Status)
    requires Valid(d) && Valid(e)
    requires Task(FormatDate(e), todo, status) in index.items
    ensures Task(FormatDate(e), todo, status) in index.GetTasks(Some(d)) <==> d == e
  {
    FormatDateInjective(d, e);
  }

  lemma Year2022()
    ensures Decimal.IntToString(2022) == "2022"
  {
    Decimal.NatToStringBelow100(20);
    assert Decimal.NatToString(20) == "20";
    assert Decimal.NatToString(202) == Decimal.NatToString(20) + "2";
    assert Decimal.NatToString(2022) == Decimal.NatToString(202) + "2";
  }

  /** The date string of a day from the 10th to the 19th of June 2022. */
  lemma SampleFormat(d: Date)
    requires d.year == 2022 && d.month == 5 && 10 <= d.day <= 19
    ensures FormatDate(d) == "2022-06-1" + [Decimal.DigitChar(d.day % 10)]
  {
    Year2022();
    FormatDateShape(d);
    MonthDayOfJune(d);
    JuneString(Decimal.DigitChar(d.day % 10));
  }

  lemma MonthDayOfJune(d: Date)
    requires d.month == 5 && 10 <= d.day <= 19
    ensures MonthDayPart(d) == "-" + ['0', '6'] + "-" + ['1', Decimal.DigitChar(d.day % 10)]
  {
    assert (d.month + 1) / 10 == 0 && (d.month + 1) % 10 == 6 && d.day / 10 == 1;
    assert Decimal.DigitChar(0) == '0' && Decimal.DigitChar(6) == '6' && Decimal.DigitChar(1) == '1';
  }

  lemma JuneString(c: char)
    ensures "2022" + ("-" + ['0', '6'] + "-" + ['1', c]) == "2022-06-1" + [c]
  {
  }

  // The query date is a parameter fixed by the requires clause, so that the verifier
  // does not evaluate the date and string functions on a literal.

  /** On 2022-06-12 the sample list has exactly its first task, which is not an emergency. */
  lemma SampleTwelfth(d: Date)
    requires d == Date(2022, 5, 12)
    ensures SampleTasks().GetTasks(Some(d)) == [SampleTasks().items[0]]
    ensures SampleTasks().HaveTask(Some(d)) && !SampleTasks().HaveEmergency(Some(d))
  {
    SampleFormat(d);
    assert FormatDate(d) == "2022-06-12";
    var items := SampleTasks().items;
    assert DatedOn(items[3..], "2022-06-12") == [];
    assert DatedOn(items[2..], "2022-06-12") == [];
    assert DatedOn(items[1..], "2022-06-12") == [];
    assert DatedOn(items, "2022-06-12") == [items[0]];
  }

  /** On 2022-06-13 the sample list has an emergency. */
  lemma SampleThirteenth(d: Date)
    requires d == Date(2022, 5, 13)
    ensures SampleTasks().HaveEmergency(Some(d))
  {
    SampleFormat(d);
    assert FormatDate(d) == "2022-06-13";
    var items := SampleTasks().items;
    assert items[1].date == "2022-06-13" && items[1].status == Emergency;
  }

  /** On 2022-06-14 the sample list has no task. */
  lemma SampleFourteenth(d: Date)
    requires d == Date(2022, 5, 14)
    ensures !SampleTasks().HaveTask(Some(d))
  {
    SampleFormat(d);
    assert FormatDate(d) == "2022-06-14";
  }
}
