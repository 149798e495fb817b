/** The values the tutoring app keeps for each of its three modules: which
    module a record belongs to, the record itself, and how the history sidebar
    names and positions it. */
module Records {

  datatype Option<T> = None | Some(value: T)

  /** The three tutoring workflows; the database stores them as 's1', 's3'
      and 'inquiry'. */
  datatype ModuleId = Diagnosis | Task | Inquiry

  /** One history entry `{title, content, solution}`.  The diagnosis and
      inquiry modules never carry a solution, and the task module starts with
      an empty one; a missing key and an empty string are both falsy where the
      app reads them, so both are the empty string here. */
  datatype Record = Record(title: string, content: string, solution: string)

  /** Number of history entries a module keeps in the session, and number of
      rows the store returns per module. */
  const MaxHistory: nat := 10

  /** Longest title the sidebar shows before cutting it. */
  const TitleWidth: nat := 10

  /** The title a generation is saved under: `[HH:MM] topic`.  The clock
      reading is a parameter. */
  function GenerationTitle(timestamp: string, topic: string): (t: string)
    ensures |t| == |timestamp| + |topic| + 3
    ensures t[..|timestamp| + 3] == "[" + timestamp + "] "
    ensures t[|t| - |topic|..] == topic
  {
    "[" + timestamp + "] " + topic
  }

  /** The sidebar caption of a title: titles longer than ten characters are cut
      to ten and marked with "..". */
  function DisplayTitle(title: string): (d: string)
    ensures |d| <= TitleWidth + 2
    ensures |title| <= TitleWidth ==> d == title
    ensures |title| > TitleWidth ==> |d| == TitleWidth + 2 && d[..TitleWidth] == title[..TitleWidth]
    ensures |title| > TitleWidth ==> d[TitleWidth..] == ".."
  {
    if |title| > TitleWidth then title[..TitleWidth] + ".." else title
  }

  /** The sidebar lists a history newest-first: the button at position `i`
      acts on the entry at `RealIndex(n, i)` of the list of length `n`. */
  function RealIndex(n: nat, i: nat): (k: nat)
    requires i < n
    ensures k < n
    ensures k + i == n - 1
  {
    n - 1 - i
  }

  /** Sidebar positions and list indices are in one-to-one correspondence:
      mapping a position to its index and back gives the position again, and
      the entry appended last is listed first. */
  lemma SidebarBijection(n: nat, i: nat)
    requires i < n
    ensures RealIndex(n, RealIndex(n, i)) == i
    ensures forall j :: 0 <= j < n && RealIndex(n, j) == RealIndex(n, i) ==> j == i
    ensures RealIndex(n, 0) == n - 1
  {
  }

  /** One sidebar button: the list index it acts on and the caption it shows. */
  datatype SidebarItem = SidebarItem(realIndex: nat, caption: string)

  /** The loop that renders a module's history in the sidebar, newest first. */
  method SidebarItems(entries: seq<Record>) returns (items: seq<SidebarItem>)
    ensures |items| == |entries|
    ensures forall i :: 0 <= i < |items| ==> items[i].realIndex == |entries| - 1 - i
    ensures forall i :: 0 <= i < |items| ==>
      items[i].caption == DisplayTitle(entries[|entries| - 1 - i].title)
  {
    items := [];
    var i := 0;
    while i < |entries|
      invariant 0 <= i <= |entries|
      invariant |items| == i
      invariant forall j :: 0 <= j < i ==> items[j].realIndex == |entries| - 1 - j
      invariant forall j :: 0 <= j < i ==>
        items[j].caption == DisplayTitle(entries[|entries| - 1 - j].title)
    {
      var realIndex := RealIndex(|entries|, i);
      items := items + [SidebarItem(realIndex, DisplayTitle(entries[realIndex].title))];
      i := i + 1;
    }
  }
}
