/**
 DNS-01 challenges: every TXT value must be in place under its own name before the first challenge
 is answered (section 8.4 of RFC 8555), including for a domain and its wildcard, which share a name.
 */
module AcmeDns {
  import opened Common

  /** One authorization as fetched: its identifier and the digest to publish, or an unusable reply. */
  datatype Auth = Auth(domain: string, txt: string) | Unusable

  datatype Challenge = Challenge(name: string, txt: string)

  /** A wildcard is answered on its parent. */
  function DnsName(domain: string): string { if "*." <= domain then domain[2..] else domain }

  /** A domain and its wildcard share the name of the domain. */
  lemma DnsNameIs(d: string)
    ensures DnsName("*." + d) == d
    ensures !("*." <= d) ==> DnsName(d) == d
  {
    assert ("*." + d)[2..] == d;
  }

  const LABEL := "_acme-challenge."

  /** The record name a domain's values go under. */
  function RecordName(name: string): string { LABEL + name }

  lemma RecordNameInjective(a: string, b: string)
    ensures RecordName(a) == RecordName(b) ==> a == b
  {
    assert RecordName(a)[|LABEL|..] == a && RecordName(b)[|LABEL|..] == b;
  }

  predicate Usable(auths: seq<Auth>) { forall i | 0 <= i < |auths| :: auths[i].Auth? }

  /** The values to publish for a name, in order. */
  function ValuesFor(auths: seq<Auth>, name: string): seq<string> {
    if auths == [] then []
    else
      var a := auths[|auths| - 1];
      ValuesFor(auths[..|auths| - 1], name) + (if a.Auth? && DnsName(a.domain) == name then [a.txt] else [])
  }

  /** What the provider's API does with each request. */
  datatype Api = Api(
    zoneFound: string -> bool,
    listed: string -> bool,
    deleted: (string, nat) -> bool,
    created: (string, nat) -> bool)

  type Records = map<string, seq<string>>

  function At(records: Records, name: string): seq<string> {
    if name in records then records[name] else []
  }

  /** The old records that a round of deletions leaves behind. */
  function Survivors(api: Api, name: string, prior: seq<string>): seq<string> {
    if prior == [] then []
    else
      var n := |prior| - 1;
      Survivors(api, name, prior[..n]) + (if api.listed(name) && api.deleted(name, n) then [] else [prior[n]])
  }

  /** How many of `n` creations succeed, from the `i`th on, before one is refused. */
  function CreatedUpTo(api: Api, name: string, n: nat, i: nat): (k: nat)
    requires i <= n
    ensures i <= k <= n
    decreases n - i
  {
    if i == n || !api.created(name, i) then i else CreatedUpTo(api, name, n, i + 1)
  }

  class Dns {
    var records: Records

    /** Delete what a name has; each deletion may fail, and is then passed over. */
    method DeleteListed(api: Api, name: string)
      modifies this
      ensures records == old(records)[name := Survivors(api, name, At(old(records), name))]
    {
      var listed := At(records, name);
      var kept := [];
      for i := 0 to |listed|
        invariant records == old(records)
        invariant kept == Survivors(api, name, listed[..i])
      {
        assert listed[..i + 1][..i] == listed[..i];
        if !(api.listed(name) && api.deleted(name, i)) { kept := kept + [listed[i]]; }
      }
      assert listed[..|listed|] == listed;
      records := records[name := kept];
    }

    /** Create one record for each value, up to the first that is refused. */
    method CreateEach(api: Api, name: string, values: seq<string>) returns (ok: bool)
      modifies this
      ensures var k := CreatedUpTo(api, name, |values|, 0);
              records == old(records)[name := At(old(records), name) + values[..k]] && (ok <==> k == |values|)
      ensures ok <==> forall i | 0 <= i < |values| :: api.created(name, i)
    {
      ghost var before := At(records, name);
      records := records[name := At(records, name)];
      assert before + values[..0] == before;
      for i := 0 to |values|
        invariant records == old(records)[name := before + values[..i]]
        invariant forall k | 0 <= k < i :: api.created(name, k)
        invariant CreatedUpTo(api, name, |values|, 0) == CreatedUpTo(api, name, |values|, i)
      {
        if !api.created(name, i) { return false; }
        assert before + values[..i] + [values[i]] == before + values[..i + 1];
        records := records[name := records[name] + [values[i]]];
      }
      assert values[..|values|] == values;
      ok := true;
    }

    /** `set_cloudflare_txt`: delete what the name has, then create one record for each value. */
    method SetTxt(api: Api, domain: string, values: seq<string>) returns (ok: bool)
      modifies this
      ensures ok ==> records == old(records)[RecordName(domain) :=
                       Survivors(api, RecordName(domain), At(old(records), RecordName(domain))) + values]
      ensures forall name | name != RecordName(domain) :: At(records, name) == At(old(records), name)
      ensures !ok ==> records == if !api.zoneFound(domain) then old(records) else old(records)[RecordName(domain) :=
                       Survivors(api, RecordName(domain), At(old(records), RecordName(domain)))
                       + values[..CreatedUpTo(api, RecordName(domain), |values|, 0)]]
      ensures ok <==> api.zoneFound(domain) && forall i | 0 <= i < |values| :: api.created(RecordName(domain), i)
    {
      if !api.zoneFound(domain) { return false; }
      DeleteListed(api, RecordName(domain));
      assert values[..|values|] == values;
      ok := CreateEach(api, RecordName(domain), values);
    }
  }

  /** The values grouped by name so far. */
  ghost predicate Grouped(txt: map<string, seq<string>>, auths: seq<Auth>) {
    && (forall name :: At(txt, name) == ValuesFor(auths, name))
    && (forall name | name in txt :: txt[name] != [])
  }

  lemma GroupedSnoc(txt: map<string, seq<string>>, auths: seq<Auth>, a: Auth)
    requires Grouped(txt, auths) && a.Auth?
    ensures var name := DnsName(a.domain);
            Grouped(txt[name := At(txt, name) + [a.txt]], auths + [a])
  {
    var more := auths + [a];
    assert more[..|more| - 1] == auths;
    forall n ensures ValuesFor(more, n) == ValuesFor(auths, n) + (if DnsName(a.domain) == n then [a.txt] else []) {
    }
  }

  /** The first pass of `issue_cert`: one challenge for each authorization, values grouped by name. */
  method Collect(auths: seq<Auth>) returns (challenges: seq<Challenge>, txt: map<string, seq<string>>, ok: bool)
    ensures ok <==> Usable(auths)
    ensures ok ==> |challenges| == |auths|
                   && forall i | 0 <= i < |auths| :: challenges[i] == Challenge(DnsName(auths[i].domain), auths[i].txt)
    ensures ok ==> forall i | 0 <= i < |auths| ::
                     auths[i].domain == challenges[i].name || auths[i].domain == "*." + challenges[i].name
    ensures ok ==> Grouped(txt, auths)
  {
    challenges, txt := [], map[];
    for i := 0 to |auths|
      invariant |challenges| == i
      invariant forall k | 0 <= k < i ::
                  auths[k].Auth? && challenges[k] == Challenge(DnsName(auths[k].domain), auths[k].txt)
      invariant Grouped(txt, auths[..i])
    {
      if auths[i].Unusable? { return challenges, txt, false; }
      GroupedSnoc(txt, auths[..i], auths[i]);
      assert auths[..i + 1] == auths[..i] + [auths[i]];
      var name := DnsName(auths[i].domain);
      txt := txt[name := At(txt, name) + [auths[i].txt]];
      challenges := challenges + [Challenge(name, auths[i].txt)];
    }
    assert auths[..|auths|] == auths;
    ok := true;
  }

  lemma {:induction false} EachValueIsGrouped(auths: seq<Auth>, i: nat)
    requires i < |auths| && auths[i].Auth?
    ensures auths[i].txt in ValuesFor(auths, DnsName(auths[i].domain))
  {
    if i < |auths| - 1 { EachValueIsGrouped(auths[..|auths| - 1], i); }
  }

  /** `a` comes before `b` in the sequence. */
  ghost predicate InOrder(values: seq<string>, a: string, b: string) {
    exists p, q :: 0 <= p < q < |values| && values[p] == a && values[q] == b
  }

  lemma InOrderAfter(front: seq<string>, values: seq<string>, a: string, b: string)
    requires InOrder(values, a, b)
    ensures InOrder(front + values, a, b)
  {
    var p, q :| 0 <= p < q < |values| && values[p] == a && values[q] == b;
    assert (front + values)[|front| + p] == a && (front + values)[|front| + q] == b;
  }

  /** Values that share a name stand in the order of their authorizations. */
  lemma {:induction false} ValuesInOrder(auths: seq<Auth>, i: nat, j: nat)
    requires i < j < |auths| && auths[i].Auth? && auths[j].Auth? && DnsName(auths[i].domain) == DnsName(auths[j].domain)
    ensures InOrder(ValuesFor(auths, DnsName(auths[j].domain)), auths[i].txt, auths[j].txt)
  {
    var n, name := |auths| - 1, DnsName(auths[j].domain);
    var front := ValuesFor(auths[..n], name);
    if j < n {
      ValuesInOrder(auths[..n], i, j);
      var p, q :| 0 <= p < q < |front| && front[p] == auths[i].txt && front[q] == auths[j].txt;
      assert ValuesFor(auths, name)[p] == front[p] && ValuesFor(auths, name)[q] == front[q];
    } else {
      EachValueIsGrouped(auths[..n], i);
      var p :| 0 <= p < |front| && front[p] == auths[i].txt;
      assert ValuesFor(auths, name) == front + [auths[j].txt];
      assert ValuesFor(auths, name)[p] == front[p] && ValuesFor(auths, name)[|front|] == auths[j].txt;
    }
  }

  /** The domain is `d` or its wildcard. */
  predicate Answers(domain: string, d: string) { domain == d || domain == "*." + d }

  /** Under its plain name, `d` has the values of its authorizations and of its wildcard's, in order. */
  ghost predicate Published(auths: seq<Auth>, now: Records, d: string)
    requires Usable(auths)
  {
    && (forall i | 0 <= i < |auths| && Answers(auths[i].domain, d) :: auths[i].txt in At(now, "_acme-challenge." + d))
    && (forall i, j | 0 <= i < j < |auths| && Answers(auths[i].domain, d) && Answers(auths[j].domain, d) ::
          InOrder(At(now, "_acme-challenge." + d), auths[i].txt, auths[j].txt))
  }

  /** What is in place under a name: survivors of the deletions, then this order's values. */
  predicate InPlace(api: Api, auths: seq<Auth>, before: Records, now: Records, name: string) {
    At(now, RecordName(name)) == Survivors(api, RecordName(name), At(before, RecordName(name))) + ValuesFor(auths, name)
  }

  /** The names of `done` are in place, every other name is as it was. */
  ghost predicate Progress(api: Api, auths: seq<Auth>, before: Records, now: Records, done: set<string>) {
    forall name ::
      if name in done then InPlace(api, auths, before, now, name)
      else At(now, RecordName(name)) == At(before, RecordName(name))
  }

  /** Setting one more name disturbs none of the others. */
  lemma ProgressNext(api: Api, auths: seq<Auth>, before: Records, now: Records, done: set<string>, name: string)
    requires Progress(api, auths, before, now, done) && name !in done
    ensures var r := RecordName(name);
            Progress(api, auths, before, now[r := Survivors(api, r, At(now, r)) + ValuesFor(auths, name)], done + {name})
  {
    var r := RecordName(name);
    var next := now[r := Survivors(api, r, At(now, r)) + ValuesFor(auths, name)];
    forall other ensures
      if other in done + {name} then InPlace(api, auths, before, next, other)
      else At(next, RecordName(other)) == At(before, RecordName(other))
    {
      RecordNameInjective(other, name);
      assert if other in done then InPlace(api, auths, before, now, other)
             else At(now, RecordName(other)) == At(before, RecordName(other));
    }
  }

  /** What `Progress` over all the names means for each challenge. */
  lemma AllInPlace(api: Api, auths: seq<Auth>, txt: map<string, seq<string>>, before: Records, now: Records, i: nat)
    requires Usable(auths) && Grouped(txt, auths) && Progress(api, auths, before, now, txt.Keys) && i < |auths|
    ensures var name := DnsName(auths[i].domain);
            InPlace(api, auths, before, now, name) && auths[i].txt in At(now, RecordName(name))
  {
    var name := DnsName(auths[i].domain);
    EachValueIsGrouped(auths, i);
    assert At(txt, name) == ValuesFor(auths, name);
  }

  lemma AllPublished(api: Api, auths: seq<Auth>, txt: map<string, seq<string>>, before: Records, now: Records, d: string)
    requires Usable(auths) && Grouped(txt, auths) && Progress(api, auths, before, now, txt.Keys) && !("*." <= d)
    ensures Published(auths, now, d)
  {
    DnsNameIs(d);
    forall i | 0 <= i < |auths| && Answers(auths[i].domain, d) ensures auths[i].txt in At(now, "_acme-challenge." + d) {
      AllInPlace(api, auths, txt, before, now, i);
    }
    forall i, j | 0 <= i < j < |auths| && Answers(auths[i].domain, d) && Answers(auths[j].domain, d)
      ensures InOrder(At(now, "_acme-challenge." + d), auths[i].txt, auths[j].txt)
    {
      AllInPlace(api, auths, txt, before, now, j);
      ValuesInOrder(auths, i, j);
      InOrderAfter(Survivors(api, RecordName(d), At(before, RecordName(d))), ValuesFor(auths, d), auths[i].txt, auths[j].txt);
    }
  }

  lemma OthersUntouched(api: Api, auths: seq<Auth>, txt: map<string, seq<string>>, before: Records, now: Records)
    requires Grouped(txt, auths) && Progress(api, auths, before, now, txt.Keys)
    ensures forall name | ValuesFor(auths, name) == [] :: At(now, RecordName(name)) == At(before, RecordName(name))
  {
  }

  /**
   Both passes up to the first answered challenge, for every iteration order of the name map: if it
   gets there, every challenge's value stands under that challenge's own name.
   */
  method Publish(api: Api, dns: Dns, auths: seq<Auth>) returns (challenges: seq<Challenge>, ok: bool)
    modifies dns
    ensures Usable(auths) && (forall name :: api.zoneFound(name)) && (forall name, i: nat :: api.created(name, i)) ==> ok
    ensures ok ==> Usable(auths) && |challenges| == |auths|
    ensures ok ==> forall i | 0 <= i < |auths| ::
                     && challenges[i] == Challenge(DnsName(auths[i].domain), auths[i].txt)
                     && challenges[i].txt in At(dns.records, RecordName(challenges[i].name))
                     && InPlace(api, auths, old(dns.records), dns.records, challenges[i].name)
    ensures ok ==> forall d | !("*." <= d) :: Published(auths, dns.records, d)
    ensures ok ==> forall name | ValuesFor(auths, name) == [] ::
                     At(dns.records, RecordName(name)) == At(old(dns.records), RecordName(name))
  {
    var txt;
    challenges, txt, ok := Collect(auths);
    if !ok { return; }
    var todo := txt.Keys;
    while todo != {}
      invariant todo <= txt.Keys
      invariant Progress(api, auths, old(dns.records), dns.records, txt.Keys - todo)
      decreases |todo|
    {
      var name :| name in todo;
      assert txt[name] == At(txt, name);
      ProgressNext(api, auths, old(dns.records), dns.records, txt.Keys - todo, name);
      ok := dns.SetTxt(api, name, txt[name]);
      if !ok { return; }
      assert txt.Keys - todo + {name} == txt.Keys - (todo - {name});
      todo := todo - {name};
    }
    ok := true;
    assert txt.Keys - todo == txt.Keys;
    forall i | 0 <= i < |auths|
      ensures var name := DnsName(auths[i].domain);
              InPlace(api, auths, old(dns.records), dns.records, name) && auths[i].txt in At(dns.records, RecordName(name))
    {
      AllInPlace(api, auths, txt, old(dns.records), dns.records, i);
    }
    forall d | !("*." <= d) ensures Published(auths, dns.records, d) {
      AllPublished(api, auths, txt, old(dns.records), dns.records, d);
    }
    OthersUntouched(api, auths, txt, old(dns.records), dns.records);
  }

  /** When every deletion succeeds nothing old is left beside the order's own values. */
  lemma {:induction false} CleanDeletionLeavesNothing(api: Api, name: string, prior: seq<string>)
    requires api.listed(name) && forall i | 0 <= i < |prior| :: api.deleted(name, i)
    ensures Survivors(api, name, prior) == []
  {
    if prior != [] { CleanDeletionLeavesNothing(api, name, prior[..|prior| - 1]); }
  }

  /** A record whose deletion failed is still there. */
  lemma {:induction false} FailedDeletionSurvives(api: Api, name: string, prior: seq<string>, i: nat)
    requires i < |prior| && !(api.listed(name) && api.deleted(name, i))
    ensures prior[i] in Survivors(api, name, prior)
  {
    if i < |prior| - 1 { FailedDeletionSurvives(api, name, prior[..|prior| - 1], i); }
  }

  /** When nothing could be listed, nothing was deleted. */
  lemma {:induction false} UnlistedStays(api: Api, name: string, prior: seq<string>)
    requires !api.listed(name)
    ensures Survivors(api, name, prior) == prior
  {
    if prior != [] { UnlistedStays(api, name, prior[..|prior| - 1]); }
  }
}
