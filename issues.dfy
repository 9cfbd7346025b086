/**
 Selecting the open GitHub issues a batch run works on
 (`scrape_matching_issues`) and splitting the processed issues into those
 that were closed and those that were only commented on (`update_issues`).
 */
module Issues {
  import opened Text

  /** An open issue as the scraper sees it: its number, title and label names. */
  datatype Issue = Issue(number: int, title: string, labels: seq<string>)

  /**
   The three tests an open issue must pass before an issue object is built
   for it: the number filter (an empty list lets every number through), the
   title filter (a substring test) and the label filter.
   */
  predicate Selected(issue: Issue, titleString: string, targetLabel: string, issueNumbers: seq<int>) {
    && (|issueNumbers| == 0 || issue.number in issueNumbers)
    && IsSubstring(titleString, issue.title)
    && targetLabel in issue.labels
  }

  /**
   The issue objects built for `openIssues`, in order. `construct` is the
   issue class's constructor: `None` stands for the `ValueError` it may
   raise, after which the issue is skipped.
   */
  function Scraped<T>(openIssues: seq<Issue>, titleString: string, targetLabel: string,
                      issueNumbers: seq<int>, construct: Issue -> Option<T>): seq<T>
  {
    if |openIssues| == 0 then []
    else
      var last := openIssues[|openIssues| - 1];
      Scraped(openIssues[..|openIssues| - 1], titleString, targetLabel, issueNumbers, construct)
      + if Selected(last, titleString, targetLabel, issueNumbers) && construct(last).Some?
        then [construct(last).value] else []
  }

  /** `scrape_matching_issues`, over the open issues it fetched. */
  method ScrapeMatchingIssues<T>(openIssues: seq<Issue>, titleString: string, targetLabel: string,
                                 issueNumbers: seq<int>, construct: Issue -> Option<T>)
    returns (scrapedIssues: seq<T>)
    ensures scrapedIssues == Scraped(openIssues, titleString, targetLabel, issueNumbers, construct)
  {
    scrapedIssues := [];
    for n := 0 to |openIssues|
      invariant scrapedIssues == Scraped(openIssues[..n], titleString, targetLabel, issueNumbers, construct)
    {
      var openIssue := openIssues[n];
      assert openIssues[..n + 1][..n] == openIssues[..n];
      if |issueNumbers| == 0 || openIssue.number in issueNumbers {
        if IsSubstring(titleString, openIssue.title) {
          var j := 0;
          while j < |openIssue.labels|
            invariant 0 <= j <= |openIssue.labels|
            invariant targetLabel !in openIssue.labels[..j]
            invariant scrapedIssues == Scraped(openIssues[..n], titleString, targetLabel, issueNumbers, construct)
          {
            if targetLabel == openIssue.labels[j] {
              var scrapedIssue := construct(openIssue);
              if scrapedIssue.Some? {
                scrapedIssues := scrapedIssues + [scrapedIssue.value];
              }
              break;
            }
            j := j + 1;
          }
          assert j == |openIssue.labels| ==> openIssue.labels[..j] == openIssue.labels;
        }
      }
    }
    assert openIssues[..|openIssues|] == openIssues;
  }

  /** Scraping a concatenation scrapes each part in turn: input order is kept. */
  lemma {:induction false} ScrapedAppend<T>(a: seq<Issue>, b: seq<Issue>, titleString: string, targetLabel: string,
                                            issueNumbers: seq<int>, construct: Issue -> Option<T>)
    ensures Scraped(a + b, titleString, targetLabel, issueNumbers, construct)
         == Scraped(a, titleString, targetLabel, issueNumbers, construct)
          + Scraped(b, titleString, targetLabel, issueNumbers, construct)
    decreases |b|
  {
    if |b| > 0 {
      var b' := b[..|b| - 1];
      assert (a + b)[..|a + b| - 1] == a + b';
      assert (a + b)[|a + b| - 1] == b[|b| - 1];
      ScrapedAppend(a, b', titleString, targetLabel, issueNumbers, construct);
    } else {
      assert a + b == a;
    }
  }

  /**
   An issue object is scraped exactly when it is built from an open issue that
   passes all three tests.
   */
  lemma {:induction false} ScrapedMember<T>(openIssues: seq<Issue>, titleString: string, targetLabel: string,
                                            issueNumbers: seq<int>, construct: Issue -> Option<T>, x: T)
    ensures x in Scraped(openIssues, titleString, targetLabel, issueNumbers, construct)
        <==> exists k :: 0 <= k < |openIssues|
               && Selected(openIssues[k], titleString, targetLabel, issueNumbers)
               && construct(openIssues[k]) == Some(x)
    decreases |openIssues|
  {
    if |openIssues| > 0 {
      var init := openIssues[..|openIssues| - 1];
      ScrapedMember(init, titleString, targetLabel, issueNumbers, construct, x);
      assert forall k :: 0 <= k < |init| ==> init[k] == openIssues[k];
    }
  }

  /** The scrape is never longer than the list of open issues. */
  lemma {:induction false} ScrapedLengthBound<T>(openIssues: seq<Issue>, titleString: string, targetLabel: string,
                                                 issueNumbers: seq<int>, construct: Issue -> Option<T>)
    ensures |Scraped(openIssues, titleString, targetLabel, issueNumbers, construct)| <= |openIssues|
    decreases |openIssues|
  {
    if |openIssues| > 0 {
      ScrapedLengthBound(openIssues[..|openIssues| - 1], titleString, targetLabel, issueNumbers, construct);
    }
  }

  /**
   Each open issue contributes its own part of the scrape, in place: at most
   one object, however often it carries the label, and one exactly when it
   passes the three tests and is built without error.
   */
  lemma ScrapedPerIssue<T>(before: seq<Issue>, x: Issue, after: seq<Issue>, titleString: string, targetLabel: string,
                           issueNumbers: seq<int>, construct: Issue -> Option<T>)
    ensures Scraped(before + [x] + after, titleString, targetLabel, issueNumbers, construct)
         == Scraped(before, titleString, targetLabel, issueNumbers, construct)
          + Scraped([x], titleString, targetLabel, issueNumbers, construct)
          + Scraped(after, titleString, targetLabel, issueNumbers, construct)
    ensures |Scraped([x], titleString, targetLabel, issueNumbers, construct)| <= 1
    ensures |Scraped([x], titleString, targetLabel, issueNumbers, construct)| == 1
        <==> Selected(x, titleString, targetLabel, issueNumbers) && construct(x).Some?
  {
    ScrapedAppend(before, [x], titleString, targetLabel, issueNumbers, construct);
    ScrapedAppend(before + [x], after, titleString, targetLabel, issueNumbers, construct);
    assert [x][..0] == [];
  }

  // ---------------------------------------------------------------------------
  // update_issues
  // ---------------------------------------------------------------------------

  /**
   A scraped issue after its commands were tested and GitHub was updated:
   its number and whether that update resolved it.
   */
  datatype ScrapedIssue = ScrapedIssue(number: int, resolved: bool)

  /** `f"#{number}"`: how an issue is named in the summary. */
  function Tag(number: int): (t: string)
    ensures |t| >= 2 && t[0] == '#'
  {
    "#" + IntToDecimal(number)
  }

  /** The number can be read back from its summary entry. */
  lemma TagReadBack(number: int)
    ensures DecimalToInt(Tag(number)[1..]) == number
  {
    assert Tag(number)[1..] == IntToDecimal(number);
    IntDecimalRoundTrip(number);
  }

  /** The numbers of the issues whose `resolved` flag equals `resolved`, in order. */
  function NumbersWhere(issues: seq<ScrapedIssue>, resolved: bool): seq<int> {
    if |issues| == 0 then []
    else
      var last := issues[|issues| - 1];
      NumbersWhere(issues[..|issues| - 1], resolved) + if last.resolved == resolved then [last.number] else []
  }

  /** The summary entry of each number, in order. */
  function Tags(numbers: seq<int>): (tags: seq<string>)
    ensures |tags| == |numbers|
    ensures forall i :: 0 <= i < |numbers| ==> tags[i] == Tag(numbers[i])
  {
    seq(|numbers|, i requires 0 <= i < |numbers| => Tag(numbers[i]))
  }

  /**
   `update_issues`: the "Closed" and "Commented" lists it builds (and prints
   when verbose).
   */
  method UpdateIssues(scrapedIssues: seq<ScrapedIssue>) returns (closedIssues: seq<string>, commentedIssues: seq<string>)
    ensures closedIssues == Tags(NumbersWhere(scrapedIssues, true))
    ensures commentedIssues == Tags(NumbersWhere(scrapedIssues, false))
  {
    closedIssues := [];
    commentedIssues := [];
    for n := 0 to |scrapedIssues|
      invariant closedIssues == Tags(NumbersWhere(scrapedIssues[..n], true))
      invariant commentedIssues == Tags(NumbersWhere(scrapedIssues[..n], false))
    {
      var scrapedIssue := scrapedIssues[n];
      assert scrapedIssues[..n + 1][..n] == scrapedIssues[..n];
      if scrapedIssue.resolved {
        TagsSnoc(NumbersWhere(scrapedIssues[..n], true), scrapedIssue.number);
        closedIssues := closedIssues + [Tag(scrapedIssue.number)];
      } else {
        TagsSnoc(NumbersWhere(scrapedIssues[..n], false), scrapedIssue.number);
        commentedIssues := commentedIssues + [Tag(scrapedIssue.number)];
      }
    }
    assert scrapedIssues[..|scrapedIssues|] == scrapedIssues;
  }

  lemma TagsSnoc(numbers: seq<int>, n: int)
    ensures Tags(numbers + [n]) == Tags(numbers) + [Tag(n)]
  {
    var l := Tags(numbers + [n]);
    var r := Tags(numbers) + [Tag(n)];
    forall i | 0 <= i < |l|
      ensures l[i] == r[i]
    {
      if i < |numbers| {
        assert (numbers + [n])[i] == numbers[i];
      }
    }
  }

  /** Every issue is listed once, as closed or as commented. */
  lemma {:induction false} PartitionSizes(issues: seq<ScrapedIssue>)
    ensures |Tags(NumbersWhere(issues, true))| + |Tags(NumbersWhere(issues, false))| == |issues|
    decreases |issues|
  {
    if |issues| > 0 {
      PartitionSizes(issues[..|issues| - 1]);
    }
  }

  /** A number is listed exactly when some issue with that flag has it. */
  lemma {:induction false} NumbersWhereMember(issues: seq<ScrapedIssue>, resolved: bool, n: int)
    ensures n in NumbersWhere(issues, resolved)
        <==> exists k :: 0 <= k < |issues| && issues[k].resolved == resolved && issues[k].number == n
    decreases |issues|
  {
    if |issues| > 0 {
      var init := issues[..|issues| - 1];
      NumbersWhereMember(init, resolved, n);
      assert forall k :: 0 <= k < |init| ==> init[k] == issues[k];
    }
  }

  /** Different issue numbers get different summary entries. */
  lemma TagInjective(a: int, b: int)
    requires Tag(a) == Tag(b)
    ensures a == b
  {
    assert Tag(a)[1..] == IntToDecimal(a) && Tag(b)[1..] == IntToDecimal(b);
    IntToDecimalInjective(a, b);
  }

  /** An issue's summary entry is in a list exactly when its number is. */
  lemma TagInTags(numbers: seq<int>, n: int)
    ensures Tag(n) in Tags(numbers) <==> n in numbers
  {
    var tags := Tags(numbers);
    if Tag(n) in tags {
      var i :| 0 <= i < |tags| && tags[i] == Tag(n);
      TagInjective(numbers[i], n);
    }
    if n in numbers {
      var i :| 0 <= i < |numbers| && numbers[i] == n;
      assert tags[i] == Tag(n);
    }
  }

  /**
   With distinct issue numbers, each issue is named in exactly one list: the
   closed list when it was resolved, the commented list otherwise.
   */
  lemma ExactlyOneList(issues: seq<ScrapedIssue>, k: nat)
    requires forall a, b :: 0 <= a < b < |issues| ==> issues[a].number != issues[b].number
    requires k < |issues|
    ensures Tag(issues[k].number) in Tags(NumbersWhere(issues, true)) <==> issues[k].resolved
    ensures Tag(issues[k].number) in Tags(NumbersWhere(issues, false)) <==> !issues[k].resolved
  {
    var n := issues[k].number;
    TagInTags(NumbersWhere(issues, true), n);
    TagInTags(NumbersWhere(issues, false), n);
    NumbersWhereMember(issues, true, n);
    NumbersWhereMember(issues, false, n);
  }
}
