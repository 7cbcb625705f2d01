/** The two scrape routines of main.py: fetch the option's front page, read
    the year window (and, for processing, the sub-option buttons), fan out one
    request per task, pair every response with its task, classify each
    response's table and concatenate the records in task order.

    The network is the parameter `fetch` (the page text, or "" when the
    request failed) and the HTML parser is the parameter `parse`. */
module Scraper {
  import opened Outcome
  import opened SeqLemmas
  import opened PyStr
  import opened Discovery
  import opened Classifier

  /** One GET: the option page, narrowed to a sub-option and to a year when given. */
  datatype Request = Request(option: int, suboption: Option<string>, year: Option<int>)

  /** What the scraper looks at in a parsed page: the text of the `lbl_pesq`
      label, the `btn_sopt` buttons and the rows of the `tb_dados` table. */
  datatype Page = Page(yearLabel: Option<string>, buttons: seq<Button>, table: Option<seq<Row>>)

  /** A pending request with the year and category its records will carry. */
  datatype Task = Task(year: int, category: Option<string>, request: Request)

  /** The option's front page, fetched without parameters. */
  function Front(option: int): Request {
    Request(option, None, None)
  }

  // ------------------------------------------------------------ tasks

  /** One task per year, in the order of `years`. */
  function YearTasks(option: int, suboption: Option<string>, category: Option<string>,
                     years: seq<int>): seq<Task>
  {
    seq(|years|, k requires 0 <= k < |years| =>
      Task(years[k], category, Request(option, suboption, Some(years[k]))))
  }

  /** The processing task list: sub-options outer, years inner. Reading the
      `value` of a button that has none raises KeyError, even with no years. */
  function ProcessingTasks(option: int, buttons: seq<Button>, years: seq<int>): Result<seq<Task>>
  {
    if buttons == [] then Ok([])
    else
      var b := buttons[|buttons| - 1];
      match ProcessingTasks(option, buttons[..|buttons| - 1], years)
      case Err(e) => Err(e)
      case Ok(ts) =>
        match b.value
        case None => Err(KeyError)
        case Some(v) => Ok(ts + YearTasks(option, Some(v), Some(Strip(b.text)), years))
  }

  lemma YearTasksStep(option: int, suboption: Option<string>, category: Option<string>,
                      years: seq<int>, j: nat)
    requires j < |years|
    ensures YearTasks(option, suboption, category, years[..j + 1])
            == YearTasks(option, suboption, category, years[..j])
               + [Task(years[j], category, Request(option, suboption, Some(years[j])))]
  {
  }

  lemma {:induction false} ProcessingTasksFails(option: int, buttons: seq<Button>, years: seq<int>)
    ensures ProcessingTasks(option, buttons, years).Err? <==>
              exists i :: 0 <= i < |buttons| && buttons[i].value.None?
    ensures ProcessingTasks(option, buttons, years).Err? ==>
              ProcessingTasks(option, buttons, years).fault == KeyError
  {
    if buttons != [] {
      var init := buttons[..|buttons| - 1];
      ProcessingTasksFails(option, init, years);
      assert forall i :: 0 <= i < |init| ==> init[i] == buttons[i];
    }
  }

  /** The processing task list has |buttons| * |years| tasks. */
  lemma {:induction false} ProcessingTasksSize(option: int, buttons: seq<Button>, years: seq<int>)
    requires ProcessingTasks(option, buttons, years).Ok?
    ensures |ProcessingTasks(option, buttons, years).value| == |buttons| * |years|
  {
    if buttons != [] {
      var init := buttons[..|buttons| - 1];
      ProcessingTasksSize(option, init, years);
      MulSucc(|init|, |years|);
    }
  }

  /** Task `s * |years| + j` is sub-option `s` in year `j`: sub-options
      outer, years inner. */
  lemma {:induction false} ProcessingTaskAt(option: int, buttons: seq<Button>, years: seq<int>, s: nat, j: nat)
    requires ProcessingTasks(option, buttons, years).Ok?
    requires s < |buttons| && j < |years|
    ensures var ts := ProcessingTasks(option, buttons, years).value;
            s * |years| + j < |ts|
            && ts[s * |years| + j]
               == Task(years[j], Some(Strip(buttons[s].text)), Request(option, buttons[s].value, Some(years[j])))
  {
    var init, b := buttons[..|buttons| - 1], buttons[|buttons| - 1];
    var n := |years|;
    ProcessingTasksSize(option, init, years);
    var ts0 := ProcessingTasks(option, init, years).value;
    var ts := ProcessingTasks(option, buttons, years).value;
    var ys := YearTasks(option, b.value, Some(Strip(b.text)), years);
    assert ts == ts0 + ys;
    BlockIndex(ts0, ys, |init|, n, s, j);
    if s < |init| {
      ProcessingTaskAt(option, init, years, s, j);
      assert buttons[s] == init[s];
    }
  }

  /** Every processing task is one kept sub-option in one of the years. */
  lemma {:induction false} ProcessingTaskTags(option: int, buttons: seq<Button>, years: seq<int>)
    requires ProcessingTasks(option, buttons, years).Ok?
    ensures forall t :: t in ProcessingTasks(option, buttons, years).value ==>
              t.year in years && exists b :: b in buttons && t.category == Some(Strip(b.text))
  {
    if buttons != [] {
      var init, b := buttons[..|buttons| - 1], buttons[|buttons| - 1];
      ProcessingTaskTags(option, init, years);
      var ts0 := ProcessingTasks(option, init, years).value;
      var ys := YearTasks(option, b.value, Some(Strip(b.text)), years);
      forall t: Task | t in ts0 + ys
        ensures t.year in years && exists b': Button :: b' in buttons && t.category == Some(Strip(b'.text))
      {
        if t in ts0 {
          var b' :| b' in init && t.category == Some(Strip(b'.text));
          assert b' in buttons;
        } else {
          assert b in buttons;
        }
      }
    }
  }

  /** The nested loops that append one task per sub-option and year. */
  method BuildProcessingTasks(option: int, buttons: seq<Button>, years: seq<int>) returns (r: Result<seq<Task>>)
    ensures r == ProcessingTasks(option, buttons, years)
  {
    var tasks: seq<Task> := [];
    var i := 0;
    while i < |buttons|
      invariant 0 <= i <= |buttons|
      invariant ProcessingTasks(option, buttons[..i], years) == Ok(tasks)
    {
      var button := buttons[i];
      assert buttons[..i + 1][..i] == buttons[..i];
      if button.value.None? {
        ProcessingTasksFails(option, buttons, years);
        return Err(KeyError);
      }
      var value := button.value.value;
      var text := Strip(button.text);
      ghost var before := tasks;
      var j := 0;
      while j < |years|
        invariant 0 <= j <= |years|
        invariant tasks == before + YearTasks(option, Some(value), Some(text), years[..j])
      {
        YearTasksStep(option, Some(value), Some(text), years, j);
        tasks := tasks + [Task(years[j], Some(text), Request(option, Some(value), Some(years[j])))];
        j := j + 1;
      }
      assert years[..j] == years;
      i := i + 1;
    }
    assert buttons[..i] == buttons;
    return Ok(tasks);
  }

  // ------------------------------------------------- gather and pairing

  /** `asyncio.gather`: the responses, in the order of the tasks. */
  function Gather(tasks: seq<Task>, fetch: Request -> string): seq<string> {
    seq(|tasks|, k requires 0 <= k < |tasks| => fetch(tasks[k].request))
  }

  /** Python's zip: pairs up to the shorter length. */
  function Zip<A, B>(xs: seq<A>, ys: seq<B>): seq<(A, B)> {
    var n := if |xs| <= |ys| then |xs| else |ys|;
    seq(n, k requires 0 <= k < n => (xs[k], ys[k]))
  }

  /** Response k is paired with task k, and no task is dropped. */
  lemma ResponsesAligned(tasks: seq<Task>, fetch: Request -> string)
    ensures var z := Zip(Gather(tasks, fetch), tasks);
            |z| == |tasks| && forall k :: 0 <= k < |z| ==> z[k] == (fetch(tasks[k].request), tasks[k])
  {
  }

  // ------------------------------------------------------------ harvest

  /** What one response contributes: nothing for empty content or a page
      without the table, otherwise the table's records under the task's tags. */
  function TaskRecords(content: string, t: Task, parse: string -> Page): Result<seq<Record>> {
    if content == "" then Ok([])
    else
      match parse(content).table
      case None => Ok([])
      case Some(rows) => TableRecords(rows, t.year, t.category)
  }

  /** `all_data`: the records of every response, in task order; the first
      failing table's error ends the scrape. */
  function Harvest(pairs: seq<(string, Task)>, parse: string -> Page): Result<seq<Record>> {
    if pairs == [] then Ok([])
    else
      var last := pairs[|pairs| - 1];
      match Harvest(pairs[..|pairs| - 1], parse)
      case Err(e) => Err(e)
      case Ok(acc) =>
        match TaskRecords(last.0, last.1, parse)
        case Err(e) => Err(e)
        case Ok(d) => Ok(acc + d)
  }

  lemma HarvestSnoc(pairs: seq<(string, Task)>, x: (string, Task), parse: string -> Page)
    ensures Harvest(pairs + [x], parse)
            == match Harvest(pairs, parse)
               case Err(e) => Err(e)
               case Ok(acc) =>
                 match TaskRecords(x.0, x.1, parse)
                 case Err(e) => Err(e)
                 case Ok(d) => Ok(acc + d)
  {
    assert (pairs + [x])[..|pairs|] == pairs;
  }

  /** Once a prefix of the responses fails, the whole harvest fails the same way. */
  lemma {:induction false} HarvestErrPersists(pairs: seq<(string, Task)>, m: nat, parse: string -> Page)
    requires m <= |pairs| && Harvest(pairs[..m], parse).Err?
    ensures Harvest(pairs, parse) == Harvest(pairs[..m], parse)
    decreases |pairs| - m
  {
    if m < |pairs| {
      var init := pairs[..|pairs| - 1];
      assert init[..m] == pairs[..m];
      HarvestErrPersists(init, m, parse);
    } else {
      assert pairs[..m] == pairs;
    }
  }

  /** The loop over the paired responses, with the row scan for each table. */
  method HarvestAll(pairs: seq<(string, Task)>, parse: string -> Page) returns (r: Result<seq<Record>>)
    ensures r == Harvest(pairs, parse)
  {
    var all: seq<Record> := [];
    var i := 0;
    while i < |pairs|
      invariant 0 <= i <= |pairs|
      invariant Harvest(pairs[..i], parse) == Ok(all)
    {
      assert pairs[..i + 1] == pairs[..i] + [pairs[i]];
      HarvestSnoc(pairs[..i], pairs[i], parse);
      var (content, t) := pairs[i];
      assert all + [] == all;
      if content != "" {
        var page := parse(content);
        if page.table.Some? {
          var data := ClassifyTable(page.table.value, t.year, t.category);
          if data.Err? {
            HarvestErrPersists(pairs, i + 1, parse);
            return Err(data.fault);
          }
          all := all + data.value;
        }
      }
      i := i + 1;
    }
    assert pairs[..i] == pairs;
    return Ok(all);
  }

  /** The harvest of two runs of responses is the harvest of the first
      followed by that of the second. */
  lemma {:induction false} HarvestAppend(p: seq<(string, Task)>, q: seq<(string, Task)>, parse: string -> Page)
    ensures Harvest(p + q, parse)
            == match Harvest(p, parse)
               case Err(e) => Err(e)
               case Ok(a) =>
                 match Harvest(q, parse)
                 case Err(e) => Err(e)
                 case Ok(b) => Ok(a + b)
    decreases |q|
  {
    if q == [] {
      assert p + q == p;
      if Harvest(p, parse).Ok? {
        assert Harvest(p, parse).value + [] == Harvest(p, parse).value;
      }
    } else {
      var q', last := q[..|q| - 1], q[|q| - 1];
      HarvestAppend(p, q', parse);
      SplitLast(p, q);
      assert q == q' + [last];
      HarvestSnoc(p + q', last, parse);
      HarvestSnoc(q', last, parse);
      if Harvest(p, parse).Ok? && Harvest(q', parse).Ok? && TaskRecords(last.0, last.1, parse).Ok? {
        var a, b, d := Harvest(p, parse).value, Harvest(q', parse).value, TaskRecords(last.0, last.1, parse).value;
        Reassociate(a, b, d);
      }
    }
  }

  /** Responses that are all empty, or whose pages all lack the table, give no records. */
  lemma {:induction false} HarvestNothing(pairs: seq<(string, Task)>, parse: string -> Page)
    requires forall k :: 0 <= k < |pairs| ==> pairs[k].0 == "" || parse(pairs[k].0).table.None?
    ensures Harvest(pairs, parse) == Ok([])
  {
    if pairs != [] {
      var init := pairs[..|pairs| - 1];
      assert forall k :: 0 <= k < |init| ==> init[k] == pairs[k];
      HarvestNothing(init, parse);
      var last := pairs[|pairs| - 1];
      assert TaskRecords(last.0, last.1, parse) == Ok([]);
      var none: seq<Record> := [];
      assert none + none == none;
    }
  }

  /** Every harvested record carries the year and category of some task. */
  lemma {:induction false} HarvestProvenance(pairs: seq<(string, Task)>, parse: string -> Page)
    requires Harvest(pairs, parse).Ok?
    ensures forall rec :: rec in Harvest(pairs, parse).value ==>
              exists k :: 0 <= k < |pairs| && rec.year == pairs[k].1.year && rec.category == pairs[k].1.category
  {
    if pairs != [] {
      var init, last := pairs[..|pairs| - 1], pairs[|pairs| - 1];
      HarvestProvenance(init, parse);
      var acc := Harvest(init, parse).value;
      var d := TaskRecords(last.0, last.1, parse).value;
      if last.0 != "" && parse(last.0).table.Some? {
        TableTags(parse(last.0).table.value, last.1.year, last.1.category);
      }
      forall rec: Record | rec in acc + d
        ensures exists k :: 0 <= k < |pairs| && rec.year == pairs[k].1.year && rec.category == pairs[k].1.category
      {
        if rec in acc {
          var k :| 0 <= k < |init| && rec.year == init[k].1.year && rec.category == init[k].1.category;
          assert init[k] == pairs[k];
        } else {
          assert pairs[|pairs| - 1] == last;
        }
      }
    }
  }

  /** Tasks in non-decreasing year order give records in non-decreasing year order. */
  lemma {:induction false} HarvestYearOrder(pairs: seq<(string, Task)>, parse: string -> Page)
    requires forall i, j :: 0 <= i < j < |pairs| ==> pairs[i].1.year <= pairs[j].1.year
    requires Harvest(pairs, parse).Ok?
    ensures var recs := Harvest(pairs, parse).value;
            forall i, j :: 0 <= i < j < |recs| ==> recs[i].year <= recs[j].year
  {
    if pairs != [] {
      var init, last := pairs[..|pairs| - 1], pairs[|pairs| - 1];
      assert forall k :: 0 <= k < |init| ==> init[k] == pairs[k];
      HarvestYearOrder(init, parse);
      HarvestProvenance(init, parse);
      var acc := Harvest(init, parse).value;
      var d := TaskRecords(last.0, last.1, parse).value;
      if last.0 != "" && parse(last.0).table.Some? {
        TableTags(parse(last.0).table.value, last.1.year, last.1.category);
      }
      assert forall rec :: rec in d ==> rec.year == last.1.year;
      assert forall rec :: rec in acc ==> rec.year <= last.1.year by {
        forall rec: Record | rec in acc ensures rec.year <= last.1.year {
          var k :| 0 <= k < |init| && rec.year == init[k].1.year && rec.category == init[k].1.category;
        }
      }
      var recs := acc + d;
      forall i, j | 0 <= i < j < |recs| ensures recs[i].year <= recs[j].year {
        if j < |acc| {
          assert recs[i] == acc[i] && recs[j] == acc[j];
        } else if i < |acc| {
          assert recs[i] in acc && recs[j] in d;
        } else {
          assert recs[i] in d && recs[j] in d;
        }
      }
    }
  }

  /** The number of records a response's table holds: one per sub-item row. */
  function TaskCount(content: string, parse: string -> Page): nat {
    if content == "" then 0
    else
      match parse(content).table
      case None => 0
      case Some(rows) => CountSubitems(Body(rows))
  }

  function TotalCount(pairs: seq<(string, Task)>, parse: string -> Page): nat {
    if pairs == [] then 0
    else TotalCount(pairs[..|pairs| - 1], parse) + TaskCount(pairs[|pairs| - 1].0, parse)
  }

  /** A successful harvest has one record per sub-item row of every table fetched. */
  lemma {:induction false} HarvestCount(pairs: seq<(string, Task)>, parse: string -> Page)
    requires Harvest(pairs, parse).Ok?
    ensures |Harvest(pairs, parse).value| == TotalCount(pairs, parse)
  {
    if pairs != [] {
      var last := pairs[|pairs| - 1];
      HarvestCount(pairs[..|pairs| - 1], parse);
      if last.0 != "" && parse(last.0).table.Some? {
        TableTags(parse(last.0).table.value, last.1.year, last.1.category);
      }
    }
  }

  // ------------------------------------------------------- the scrapers

  /** scrape_data_production: one request per available year. */
  function Production(selector: string, option: int, fetch: Request -> string, parse: string -> Page)
    : Result<seq<Record>>
  {
    var content := fetch(Front(option));
    if content == "" then Ok([])
    else
      match parse(content).yearLabel
      case None => Ok([])
      case Some(text) =>
        match ParseWindow(text)
        case Err(e) => Err(e)
        case Ok(w) =>
          match AvailableYears(selector, w)
          case Err(e) => Err(e)
          case Ok(years) =>
            var tasks := YearTasks(option, None, None, years);
            Harvest(Zip(Gather(tasks, fetch), tasks), parse)
  }

  /** scrape_data_processing: one request per kept sub-option and year. The
      sub-option filter runs before the label is looked at. */
  function Processing(selector: string, option: int, category: int, fetch: Request -> string,
                      parse: string -> Page): Result<seq<Record>>
  {
    var content := fetch(Front(option));
    if content == "" then Ok([])
    else
      var page := parse(content);
      match FilterSuboptions(page.buttons, category)
      case Err(e) => Err(e)
      case Ok(subs) =>
        match page.yearLabel
        case None => Ok([])
        case Some(text) =>
          match ParseWindow(text)
          case Err(e) => Err(e)
          case Ok(w) =>
            match AvailableYears(selector, w)
            case Err(e) => Err(e)
            case Ok(years) =>
              match ProcessingTasks(option, subs, years)
              case Err(e) => Err(e)
              case Ok(tasks) => Harvest(Zip(Gather(tasks, fetch), tasks), parse)
  }

  method ScrapeProduction(selector: string, option: int, fetch: Request -> string, parse: string -> Page)
    returns (r: Result<seq<Record>>)
    ensures r == Production(selector, option, fetch, parse)
  {
    var content := fetch(Front(option));
    if content == "" {
      return Ok([]);
    }
    var page := parse(content);
    if page.yearLabel.None? {
      return Ok([]);
    }
    var window := ParseWindow(page.yearLabel.value);
    if window.Err? {
      return Err(window.fault);
    }
    var years := AvailableYears(selector, window.value);
    if years.Err? {
      return Err(years.fault);
    }
    var tasks := YearTasks(option, None, None, years.value);
    var responses := Gather(tasks, fetch);
    r := HarvestAll(Zip(responses, tasks), parse);
  }

  method ScrapeProcessing(selector: string, option: int, category: int, fetch: Request -> string,
                          parse: string -> Page) returns (r: Result<seq<Record>>)
    ensures r == Processing(selector, option, category, fetch, parse)
  {
    var content := fetch(Front(option));
    if content == "" {
      return Ok([]);
    }
    var page := parse(content);
    var suboptions := FilterSuboptions(page.buttons, category);
    if suboptions.Err? {
      return Err(suboptions.fault);
    }
    if page.yearLabel.None? {
      return Ok([]);
    }
    var window := ParseWindow(page.yearLabel.value);
    if window.Err? {
      return Err(window.fault);
    }
    var years := AvailableYears(selector, window.value);
    if years.Err? {
      return Err(years.fault);
    }
    var tasks := BuildProcessingTasks(option, suboptions.value, years.value);
    if tasks.Err? {
      return Err(tasks.fault);
    }
    var responses := Gather(tasks.value, fetch);
    r := HarvestAll(Zip(responses, tasks.value), parse);
  }

  // ------------------------------------------------ what the scrapers promise

  /** An empty front page gives no records on either path; a front page
      without the label gives none on the production path, and on the
      processing path none unless the sub-option filter already raised. */
  lemma EarlyExits(selector: string, option: int, category: int, fetch: Request -> string,
                   parse: string -> Page)
    ensures fetch(Front(option)) == "" ==>
              Production(selector, option, fetch, parse) == Ok([])
              && Processing(selector, option, category, fetch, parse) == Ok([])
    ensures var content := fetch(Front(option));
            content != "" && parse(content).yearLabel.None? ==>
              Production(selector, option, fetch, parse) == Ok([])
              && Processing(selector, option, category, fetch, parse)
                 == if FilterSuboptions(parse(content).buttons, category).Err? then Err(KeyError) else Ok([])
  {
    var content := fetch(Front(option));
    if content != "" {
      FilterSuboptionsSpec(parse(content).buttons, category);
    }
  }

  /** On the production path every record carries no category and one of the
      selected years; for the all-years word the years lie in the window and
      the records come in year order. */
  lemma ProductionRecords(selector: string, option: int, fetch: Request -> string, parse: string -> Page,
                          text: string, w: Window)
    requires fetch(Front(option)) != "" && parse(fetch(Front(option))).yearLabel == Some(text)
    requires ParseWindow(text) == Ok(w)
    requires Production(selector, option, fetch, parse).Ok?
    ensures AvailableYears(selector, w).Ok?
    ensures var recs := Production(selector, option, fetch, parse).value;
            forall rec :: rec in recs ==> rec.category.None? && rec.year in AvailableYears(selector, w).value
    ensures IsAllYears(selector) ==>
              var recs := Production(selector, option, fetch, parse).value;
              (forall rec :: rec in recs ==> w.start <= rec.year <= w.end)
              && forall i, j :: 0 <= i < j < |recs| ==> recs[i].year <= recs[j].year
  {
    var years := AvailableYears(selector, w).value;
    var tasks := YearTasks(option, None, None, years);
    var pairs := Zip(Gather(tasks, fetch), tasks);
    assert |pairs| == |tasks|;
    assert forall k :: 0 <= k < |pairs| ==> pairs[k].1 == tasks[k];
    HarvestProvenance(pairs, parse);
    var recs := Production(selector, option, fetch, parse).value;
    forall rec | rec in recs
      ensures rec.category.None? && rec.year in years
    {
      var k :| 0 <= k < |pairs| && rec.year == pairs[k].1.year && rec.category == pairs[k].1.category;
      assert pairs[k].1 == tasks[k];
    }
    if IsAllYears(selector) {
      AllYearsAreTheWindow(selector, w);
      assert forall i, j :: 0 <= i < j < |pairs| ==> pairs[i].1.year <= pairs[j].1.year;
      HarvestYearOrder(pairs, parse);
    }
  }

  /** On the processing path every record carries one of the selected years
      and the stripped text of a button the category keeps. */
  lemma ProcessingRecords(selector: string, option: int, category: int, fetch: Request -> string,
                          parse: string -> Page, text: string, w: Window)
    requires fetch(Front(option)) != "" && parse(fetch(Front(option))).yearLabel == Some(text)
    requires ParseWindow(text) == Ok(w)
    requires Processing(selector, option, category, fetch, parse).Ok?
    ensures AvailableYears(selector, w).Ok?
    ensures var buttons := parse(fetch(Front(option))).buttons;
            forall rec :: rec in Processing(selector, option, category, fetch, parse).value ==>
              rec.year in AvailableYears(selector, w).value
              && exists b :: b in buttons && (category == 0 || Matches(b, Str(category)))
                             && rec.category == Some(Strip(b.text))
  {
    var page := parse(fetch(Front(option)));
    FilterSuboptionsSpec(page.buttons, category);
    var subs := FilterSuboptions(page.buttons, category).value;
    var years := AvailableYears(selector, w).value;
    ProcessingTaskTags(option, subs, years);
    var tasks := ProcessingTasks(option, subs, years).value;
    var pairs := Zip(Gather(tasks, fetch), tasks);
    assert forall k :: 0 <= k < |pairs| ==> pairs[k].1 == tasks[k];
    HarvestProvenance(pairs, parse);
    var recs := Processing(selector, option, category, fetch, parse).value;
    forall rec | rec in recs
      ensures rec.year in years
      ensures exists b :: b in page.buttons && (category == 0 || Matches(b, Str(category)))
                          && rec.category == Some(Strip(b.text))
    {
      var k :| 0 <= k < |pairs| && rec.year == pairs[k].1.year && rec.category == pairs[k].1.category;
      var t := tasks[k];
      assert t in tasks;
      var b :| b in subs && t.category == Some(Strip(b.text));
      assert b in page.buttons;
    }
  }
}
