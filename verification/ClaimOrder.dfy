/** The claim order of the job queue against time: creation times are texts, and within a second
    their order need not be that of the instants. */
module ClaimOrder {
  import opened TextOrder
  import opened Timestamps
  import opened Jobs

  lemma DifferentInstantsDifferentTexts(a: Instant, b: Instant)
    requires Proper(a) && Proper(b) && a != b
    ensures Text(a) != Text(b)
  {
    if SameSecond(a, b) {
      if a.nano < b.nano { TextsDiffer(a, b); } else { TextsDiffer(b, a); }
    } else {
      DifferentSecondsInOrder(a, b);
      DifferentSecondsInOrder(b, a);
      Trichotomy(Text(a), Text(b));
    }
  }

  /** At equal priority jobs are claimed in the order of their creation, except within a second
      when the digits of one fraction begin those of the other; then the later one goes first. */
  lemma ClaimOrderIsTimeOrderIff(jobs: Table, x: string, y: string, a: Instant, b: Instant)
    requires x in jobs && y in jobs && jobs[x].priority == jobs[y].priority
    requires Proper(a) && Proper(b) && a != b
    requires jobs[x].createdAt == Text(a) && jobs[y].createdAt == Text(b)
    ensures (Ahead(jobs, x, y) <==> Before(a, b)) <==> !Misread(a, b)
  {
    ExpiryTestsAgreeIff(a, b);
    DifferentInstantsDifferentTexts(a, b);
  }

  function WaitingSince(t: Instant): Job
  {
    Job("catalog_scan", 100, Queued, "mount", "", 0, 3, None, Text(t))
  }

  /** Of a job queued on the second and one queued half a second later, the later is next. */
  lemma LaterJobCanBeNext(t: Instant)
    requires Proper(t) && t.nano == 0
    ensures var later := t.(nano := 500000000);
            Before(t, later) && IsNext(map["a" := WaitingSince(t), "b" := WaitingSince(later)], "b")
  {
    var later := t.(nano := 500000000);
    HalfSecondIsMisread(t);
    DifferentInstantsDifferentTexts(t, later);
    Trichotomy(Text(t), Text(later));
  }
}
