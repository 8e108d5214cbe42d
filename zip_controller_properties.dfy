/**
 * What DownloadMultipleFiles promises, stated over Respond, the function
 * its method is proved against: which requests are rejected, which
 * failures abort the request and which are skipped, and which entries the
 * archive holds, in which order, under which names and with which bytes.
 */
module ZipControllerProperties {
  import opened Sequences
  import opened FileNames
  import opened ZipController

  /** Every download with content derives a non-empty entry name. */
  predicate AllNamed(files: seq<Downloaded>)
  {
    forall i :: 0 <= i < |files| && HasContent(files[i]) ==> DeriveName(files[i].fileUrl) != []
  }

  /** The foreach loop runs to the end exactly when every download with content has a non-empty name. */
  lemma {:induction false} PlanSucceedsIffNamed(files: seq<Downloaded>)
    ensures PlanEntries(files).Success? <==> AllNamed(files)
    decreases |files|
  {
    if files != [] {
      var n := |files| - 1;
      var before, last := files[..n], files[n];
      PlanSucceedsIffNamed(before);
      assert PlanEntries(files) == AddFile(PlanEntries(before), last);
      assert AllNamed(files) <==> AllNamed(before) && (HasContent(last) ==> DeriveName(last.fileUrl) != []) by {
        assert forall i :: 0 <= i < n ==> before[i] == files[i];
      }
    }
  }

  /**
   * When the foreach loop runs to the end, its k-th entry is the entry of
   * the k-th download with content: one entry per such download, in input
   * order, and nothing else.
   */
  lemma {:induction false} PlanEntriesInOrder(files: seq<Downloaded>)
    requires PlanEntries(files).Success?
    ensures |PlanEntries(files).value| == |Positions(files, HasContent)|
    ensures forall k :: 0 <= k < |PlanEntries(files).value| ==>
      PlanEntries(files).value[k] == EntryFor(files[Positions(files, HasContent)[k]])
    decreases |files|
  {
    if files != [] {
      var n := |files| - 1;
      var before, last := files[..n], files[n];
      assert PlanEntries(files) == AddFile(PlanEntries(before), last);
      PlanEntriesInOrder(before);
      PositionsStep(files, HasContent);
      var es, ix := PlanEntries(before).value, Positions(before, HasContent);
      var es', ix' := PlanEntries(files).value, Positions(files, HasContent);
      forall k | 0 <= k < |es'| ensures es'[k] == EntryFor(files[ix'[k]]) {
        if k < |es| {
          assert es'[k] == es[k] && ix'[k] == ix[k];
          assert before[ix[k]] == files[ix[k]];
        }
      }
    }
  }

  /** A download without content changes nothing, wherever it stands. */
  lemma {:induction false} PlanSkipsNoContent(front: seq<Downloaded>, url: string, back: seq<Downloaded>)
    ensures PlanEntries(front + [Downloaded(url, None)] + back) == PlanEntries(front + back)
    decreases |back|
  {
    var skipped := Downloaded(url, None);
    var with, without := front + [skipped] + back, front + back;
    if back == [] {
      assert with[..|with| - 1] == front;
      assert without == front;
    } else {
      var m := |back| - 1;
      PlanSkipsNoContent(front, url, back[..m]);
      assert with[..|with| - 1] == front + [skipped] + back[..m];
      assert without[..|without| - 1] == front + back[..m];
      assert with[|with| - 1] == without[|without| - 1];
    }
  }

  /** An added HTTP failure does not change whether Task.WhenAll throws. */
  lemma FaultsUnaffected(
    urlsFront: seq<string>, outcomesFront: seq<FetchOutcome>, url: string,
    urlsBack: seq<string>, outcomesBack: seq<FetchOutcome>)
    requires |urlsFront| == |outcomesFront| && |urlsBack| == |outcomesBack|
    ensures Settle(urlsFront + [url] + urlsBack, outcomesFront + [HttpFail] + outcomesBack).Failure?
        <==> Settle(urlsFront + urlsBack, outcomesFront + outcomesBack).Failure?
  {
    var front, back := outcomesFront, outcomesBack;
    assert forall o :: o in front + [HttpFail] + back <==> o in front || o == HttpFail || o in back;
    assert forall o :: o in front + back <==> o in front || o in back;
  }

  /** Settling with an extra HTTP failure at position f inserts a record without content there. */
  lemma SettleInsertsHttpFailure(
    urls: seq<string>, outcomes: seq<FetchOutcome>, url: string, f: nat,
    urls': seq<string>, outcomes': seq<FetchOutcome>)
    requires |urls'| == |outcomes'| && f <= |urls'|
    requires urls == urls'[..f] + [url] + urls'[f..]
    requires outcomes == outcomes'[..f] + [HttpFail] + outcomes'[f..]
    requires Settle(urls', outcomes').Success? && Settle(urls, outcomes).Success?
    ensures Settle(urls, outcomes).value
         == Settle(urls', outcomes').value[..f] + [Downloaded(url, None)] + Settle(urls', outcomes').value[f..]
  {
    var with, without := Settle(urls, outcomes).value, Settle(urls', outcomes').value;
    var expected := without[..f] + [Downloaded(url, None)] + without[f..];
    assert |expected| == |urls| == |with|;
    forall i | 0 <= i < |urls| ensures with[i] == expected[i] {
      if i < f {
        assert urls[i] == urls'[i] && outcomes[i] == outcomes'[i];
        assert expected[i] == without[i];
      } else if i > f {
        assert urls[i] == urls'[i - 1] && outcomes[i] == outcomes'[i - 1];
        assert expected[i] == without[i - 1];
      }
    }
  }

  /**
   * A download that fails with an HTTP error contributes no entry and does
   * not abort the request: the response is the one for the request without
   * that URL (as long as some URL is left).
   */
  lemma HttpFailureSkipped(
    urlsFront: seq<string>, outcomesFront: seq<FetchOutcome>, url: string,
    urlsBack: seq<string>, outcomesBack: seq<FetchOutcome>)
    requires |urlsFront| == |outcomesFront| && |urlsBack| == |outcomesBack|
    requires |urlsFront| + |urlsBack| > 0
    ensures Respond(Some(urlsFront + [url] + urlsBack), outcomesFront + [HttpFail] + outcomesBack)
         == Respond(Some(urlsFront + urlsBack), outcomesFront + outcomesBack)
  {
    var urls, outcomes := urlsFront + [url] + urlsBack, outcomesFront + [HttpFail] + outcomesBack;
    var urls', outcomes' := urlsFront + urlsBack, outcomesFront + outcomesBack;
    var f := |urlsFront|;
    FaultsUnaffected(urlsFront, outcomesFront, url, urlsBack, outcomesBack);
    if Settle(urls', outcomes').Success? {
      assert urls'[..f] == urlsFront && urls'[f..] == urlsBack;
      assert outcomes'[..f] == outcomesFront && outcomes'[f..] == outcomesBack;
      SettleInsertsHttpFailure(urls, outcomes, url, f, urls', outcomes');
      var files := Settle(urls', outcomes').value;
      PlanSkipsNoContent(files[..f], url, files[f..]);
      assert files[..f] + files[f..] == files;
    }
    RespondBySettledPlan(urls, outcomes, urls', outcomes');
  }

  /** Two non-empty requests whose downloads settle and plan alike get the same response. */
  lemma RespondBySettledPlan(
    urls: seq<string>, outcomes: seq<FetchOutcome>, urls': seq<string>, outcomes': seq<FetchOutcome>)
    requires |urls| == |outcomes| > 0 && |urls'| == |outcomes'| > 0
    requires Settle(urls, outcomes).Success? == Settle(urls', outcomes').Success?
    requires Settle(urls, outcomes).Success? ==>
      PlanEntries(Settle(urls, outcomes).value) == PlanEntries(Settle(urls', outcomes').value)
    ensures Respond(Some(urls), outcomes) == Respond(Some(urls'), outcomes')
  {
  }

  /** A missing or empty URL array is rejected, whatever the downloads would have done. */
  lemma EmptyRequestRejected(outcomes: seq<FetchOutcome>)
    ensures Respond(None, outcomes) == BadRequest("No file URLs provided.")
    ensures Respond(Some([]), []) == BadRequest("No file URLs provided.")
  {
  }

  /**
   * The complete outcome of a non-empty request: it faults when any download
   * threw something other than an HTTP error; otherwise it yields an archive
   * exactly when every download with content derives a non-empty name; and
   * the archive's k-th entry holds the derived name and the exact bytes of
   * the k-th download that returned content, counted in input order.
   */
  lemma RespondSpec(urls: seq<string>, outcomes: seq<FetchOutcome>)
    requires |urls| == |outcomes|
    ensures Respond(Some(urls), outcomes) == Unhandled(FetchFaulted) <==> |urls| > 0 && OtherFail in outcomes
    ensures Respond(Some(urls), outcomes).Zip? <==>
      |urls| > 0 && OtherFail !in outcomes &&
      forall i :: 0 <= i < |urls| && Fetched(outcomes[i]) ==> DeriveName(urls[i]) != []
    ensures Respond(Some(urls), outcomes).Zip? ==>
      var es, ix := Respond(Some(urls), outcomes).entries, Positions(outcomes, Fetched);
      |es| == |ix| &&
      forall k :: 0 <= k < |es| ==> es[k] == Entry(DeriveName(urls[ix[k]]), outcomes[ix[k]].content)
  {
    var settled := Settle(urls, outcomes);
    if |urls| > 0 && settled.Success? {
      var files := settled.value;
      PlanSucceedsIffNamed(files);
      if PlanEntries(files).Success? {
        PlanEntriesInOrder(files);
      }
      PositionsAgree(files, HasContent, outcomes, Fetched);
      assert forall i :: 0 <= i < |urls| ==> files[i].fileUrl == urls[i] && (HasContent(files[i]) <==> Fetched(outcomes[i]));
    }
  }

  /** When every download fails with an HTTP error the archive is returned, with no entries. */
  lemma AllHttpFailuresGiveEmptyArchive(urls: seq<string>, outcomes: seq<FetchOutcome>)
    requires |urls| == |outcomes| > 0
    requires forall i :: 0 <= i < |outcomes| ==> outcomes[i] == HttpFail
    ensures Respond(Some(urls), outcomes) == Zip([])
  {
    RespondSpec(urls, outcomes);
    assert OtherFail !in outcomes;
    PositionsNone(outcomes, Fetched);
  }

  /**
   * Entry names are not made unique: two downloads with content whose URLs
   * derive the same name give two entries carrying that very name.
   */
  lemma DuplicateNamesKept(urls: seq<string>, outcomes: seq<FetchOutcome>, es: seq<Entry>, i: nat, j: nat)
    requires |urls| == |outcomes|
    requires i < j < |urls| && Fetched(outcomes[i]) && Fetched(outcomes[j])
    requires DeriveName(urls[i]) == DeriveName(urls[j])
    requires Respond(Some(urls), outcomes) == Zip(es)
    ensures exists k, l :: 0 <= k < l < |es| && es[k].name == es[l].name == DeriveName(urls[i])
  {
    RespondSpec(urls, outcomes);
    var ix := Positions(outcomes, Fetched);
    assert i in ix && j in ix;
    var k :| 0 <= k < |ix| && ix[k] == i;
    var l :| 0 <= l < |ix| && ix[l] == j;
    PositionsOrdered(outcomes, Fetched, k, l);
    assert es[k].name == DeriveName(urls[i]) && es[l].name == DeriveName(urls[j]);
  }

  /** The foreach loop over one more download. */
  lemma PlanEntriesSnoc(files: seq<Downloaded>, file: Downloaded)
    ensures PlanEntries(files + [file]) == AddFile(PlanEntries(files), file)
  {
    assert (files + [file])[..|files|] == files;
  }

  /** One more download with content and a non-empty derived name adds its entry. */
  lemma PlanEntriesSnocNamed(files: seq<Downloaded>, entries: seq<Entry>, url: string, content: seq<byte>, name: string)
    requires PlanEntries(files) == Success(entries)
    requires DeriveName(url) == name && name != []
    ensures PlanEntries(files + [Downloaded(url, Some(content))]) == Success(entries + [Entry(name, content)])
  {
    PlanEntriesSnoc(files, Downloaded(url, Some(content)));
  }

  /**
   * A worked request: the HTTP failure is skipped, the empty download still
   * gets an entry, the order is the input order and both "a.txt" entries
   * keep their name.
   */
  lemma MixedRequest()
    ensures Respond(
      Some(["http://h/a.txt?x=1/b", "http://x/docs/r.pdf", "http://x/a.txt?v=2", "http://y/a.txt"]),
      [Ok([104, 105]), HttpFail, Ok([]), Ok([7])])
      == Zip([Entry("b", [104, 105]), Entry("a.txt", []), Entry("a.txt", [7])])
  {
    var urls := ["http://h/a.txt?x=1/b", "http://x/docs/r.pdf", "http://x/a.txt?v=2", "http://y/a.txt"];
    MixedRequestSettles(urls);
    SeparatorCutBeforeQuery();
    MixedRequestSharedName();
    PlanOfFour(urls[0], urls[1], urls[2], urls[3]);
  }

  /** The downloads of MixedRequest settle without a fault, in task order. */
  lemma MixedRequestSettles(urls: seq<string>)
    requires |urls| == 4
    ensures Settle(urls, [Ok([104, 105]), HttpFail, Ok([]), Ok([7])]) == Success([
      Downloaded(urls[0], Some([104, 105])), Downloaded(urls[1], None),
      Downloaded(urls[2], Some([])), Downloaded(urls[3], Some([7]))])
  {
    var outcomes: seq<FetchOutcome> := [Ok([104, 105]), HttpFail, Ok([]), Ok([7])];
    assert OtherFail !in outcomes;
    var files := Settle(urls, outcomes).value;
    assert ContentOf(outcomes[0]) == Some([104, 105]) && ContentOf(outcomes[1]) == None;
    assert ContentOf(outcomes[2]) == Some([]) && ContentOf(outcomes[3]) == Some([7]);
    assert files == [files[0], files[1], files[2], files[3]];
  }

  /** The last two URLs of MixedRequest, with and without a query, derive the same name. */
  lemma MixedRequestSharedName()
    ensures DeriveName("http://x/a.txt?v=2") == "a.txt"
    ensures DeriveName("http://y/a.txt") == "a.txt"
  {
    assert DeriveName("http://x/a.txt?v=2") == "a.txt" by {
      DeriveNameDetermined("http://x/a.txt?v=2", 9, "a.txt");
    }
    assert DeriveName("http://y/a.txt") == "a.txt" by {
      DeriveNameDetermined("http://y/a.txt", 9, "a.txt");
    }
  }

  /** The foreach loop of MixedRequest, given the names its URLs derive. */
  lemma PlanOfFour(u0: string, u1: string, u2: string, u3: string)
    requires DeriveName(u0) == "b" && DeriveName(u2) == "a.txt" && DeriveName(u3) == "a.txt"
    ensures PlanEntries([
        Downloaded(u0, Some([104, 105])), Downloaded(u1, None),
        Downloaded(u2, Some([])), Downloaded(u3, Some([7]))])
      == Success([Entry("b", [104, 105]), Entry("a.txt", []), Entry("a.txt", [7])])
  {
    var f0, f1, f2, f3 :=
      Downloaded(u0, Some([104, 105])), Downloaded(u1, None),
      Downloaded(u2, Some([])), Downloaded(u3, Some([7]));
    var e0, e2, e3 := Entry("b", [104, 105]), Entry("a.txt", []), Entry("a.txt", [7]);
    PlanEntriesSnocNamed([], [], u0, [104, 105], "b");
    assert [] + [f0] == [f0] && [] + [e0] == [e0];
    PlanEntriesSnoc([f0], f1);
    PlanEntriesSnocNamed([f0, f1], [e0], u2, [], "a.txt");
    assert [f0, f1] + [f2] == [f0, f1, f2] && [e0] + [e2] == [e0, e2];
    PlanEntriesSnocNamed([f0, f1, f2], [e0, e2], u3, [7], "a.txt");
    assert [f0, f1, f2] + [f3] == [f0, f1, f2, f3] && [e0, e2] + [e3] == [e0, e2, e3];
  }
}
