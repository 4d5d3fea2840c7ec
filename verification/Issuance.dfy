/** Which requests get a certificate, and what is in it: the run over the requests, one at a
    time, without the functions that it is specified with. */
module Issuance {
  import opened Bytes
  import opened Database
  import opened Issue
  import opened NameCheck
  import opened Names
  import opened Policy
  import opened PolicyMeaning
  import opened Revocation
  import opened SerialHex
  import opened TxtDb

  /** The name of the request, with the corrections of `-msie_hack`. */
  function NameFor(cfg: Config, req: Request): (name: seq<Entry>)
    ensures |name| == |req.name|
  {
    seq(|req.name|, i requires 0 <= i < |req.name| => if cfg.msieHack then Corrected(req.name[i]) else req.name[i])
  }

  /** The name meets the string checks, and the policy: against the CA's name, or against
      itself if the certificate is self-signed. */
  predicate IsAdmitted(cfg: Config, req: Request) {
    var name := NameFor(cfg, req);
    && (forall i :: 0 <= i < |name| ==> Passes(cfg.emailDn, name[i]))
    && MeetsPolicy(cfg.txt2nid, cfg.policy, name, if cfg.selfsign then name else cfg.caName)
  }

  /** The subject: the whole name if it is to be preserved, otherwise the types that the policy
      names in its order; without e-mail addresses unless they are wanted. */
  function SubjectFor(cfg: Config, req: Request): seq<Entry> {
    var name := NameFor(cfg, req);
    var all := if cfg.preserve then name else InPolicyOrder(cfg.txt2nid, cfg.policy, name);
    if cfg.emailDn then all else Select(all, (e: Entry) => e.obj != 48)
  }

  function CertFor(cfg: Config, req: Request, serial: int): Cert {
    Cert(serial, cfg.oneline(SubjectFor(cfg, req)), req.notAfter)
  }

  /** A row has the serial, or an indexed row the name. */
  predicate RowClashes(db: Db, c: Cert) {
    NameClashes(db, c) || exists i :: 0 <= i < |db.rows| && HasSerial(db.rows[i], c.serial)
  }

  /** Everything that a request needs to get a certificate. */
  predicate IsIssued(cfg: Config, req: Request, serial: int, db: Db) {
    && req.checked == Verified && IsAdmitted(cfg, req) && req.buildable
    && !RowClashes(db, CertFor(cfg, req, serial))
    && req.confirmed && req.signable
  }

  /** The request is passed over, and the run goes on: its signature is wrong, or the operator
      says no to a certificate that could be made. */
  predicate IsDeclined(cfg: Config, req: Request, serial: int, db: Db) {
    || req.checked == BadSignature
    || (req.checked == Verified && IsAdmitted(cfg, req) && req.buildable
        && !RowClashes(db, CertFor(cfg, req, serial)) && !req.confirmed)
  }

  lemma CertIs(cfg: Config, req: Request, serial: int)
    ensures CertOf(cfg, req, serial) == CertFor(cfg, req, serial)
    ensures Permitted(cfg, req) <==> IsAdmitted(cfg, req)
  {
    var name := NameFor(cfg, req);
    assert NameOf(cfg, req) == name;
    SubjectExactly(cfg.txt2nid, cfg.policy, name);
    var all := if cfg.preserve then name else InPolicyOrder(cfg.txt2nid, cfg.policy, name);
    SelectOthers(all, 48, (e: Entry) => e.obj != 48);
    PolicyExactly(cfg.txt2nid, cfg.policy, name, if cfg.selfsign then name else cfg.caName);
  }

  lemma ClashIs(db: Db, c: Cert)
    ensures Clashes(db, c) <==> RowClashes(db, c)
  {
    var f := FindSerial(db.rows, SerialText(c.serial));
    if f.Some? { assert HasSerial(db.rows[f.value], c.serial); }
  }

  lemma OutcomeIs(cfg: Config, req: Request, serial: int, db: Db)
    ensures Outcome(cfg, req, serial, db) == 1 <==> IsIssued(cfg, req, serial, db)
    ensures Outcome(cfg, req, serial, db) == 0 <==> IsDeclined(cfg, req, serial, db)
    ensures Outcome(cfg, req, serial, db) == 1 ==>
              Issued(cfg, req, serial, db) == WithRow(db, InsertedRow(CertFor(cfg, req, serial)))
  {
    CertIs(cfg, req, serial);
    ClashIs(db, CertFor(cfg, req, serial));
    if Outcome(cfg, req, serial, db) == 1 { InsertSucceeds(db, CertFor(cfg, req, serial)); }
  }

  /** One more request: it is issued with the next serial exactly if it has everything it
      needs; it is passed over exactly if it is declined; and otherwise the run is over. */
  lemma OneMoreExactly(cfg: Config, reqs: seq<Request>, req: Request, serial: int, db: Db)
    ensures IssueAll(cfg, [], serial, db) == Batch(true, db, serial, [])
    ensures var b, after := IssueAll(cfg, reqs, serial, db), IssueAll(cfg, reqs + [req], serial, db);
            if !b.ok then after == b
            else if IsIssued(cfg, req, b.serial, b.db) then
              var c := CertFor(cfg, req, b.serial);
              after == Batch(true, WithRow(b.db, InsertedRow(c)), b.serial + 1, b.certs + [c])
            else after == b.(ok := IsDeclined(cfg, req, b.serial, b.db))
  {
    IssueMore(cfg, reqs, req, serial, db);
    var b := IssueAll(cfg, reqs, serial, db);
    if b.ok {
      OutcomeIs(cfg, req, b.serial, b.db);
      CertIs(cfg, req, b.serial);
    }
  }

  /** The request that certificate `i` of a run was made for. */
  predicate IsMadeFor(cfg: Config, c: Cert, req: Request, serial: int) {
    && c == CertFor(cfg, req, serial)
    && req.checked == Verified && IsAdmitted(cfg, req) && req.buildable && req.confirmed && req.signable
  }

  predicate AreMadeFor(cfg: Config, certs: seq<Cert>, reqs: seq<Request>, serial: int, from: seq<nat>) {
    && |from| == |certs|
    && forall i :: 0 <= i < |certs| ==> from[i] < |reqs| && IsMadeFor(cfg, certs[i], reqs[from[i]], serial + i)
  }

  predicate Increasing(from: seq<nat>) { forall i, j :: 0 <= i < j < |from| ==> from[i] < from[j] }

  /** Every certificate of a run was made for a request that meets the policy against the right
      name and all else that is asked, in the order of the requests. */
  lemma {:induction false} CertificatesAreDeserved(cfg: Config, reqs: seq<Request>, serial: int, db: Db)
    returns (from: seq<nat>)
    ensures AreMadeFor(cfg, IssueAll(cfg, reqs, serial, db).certs, reqs, serial, from) && Increasing(from)
  {
    if reqs == [] {
      from := [];
    } else {
      var n := |reqs| - 1;
      var before := CertificatesAreDeserved(cfg, reqs[..n], serial, db);
      from := OneMoreDeserved(cfg, reqs[..n], serial, db, before, reqs[n]);
      assert reqs == reqs[..n] + [reqs[n]];
    }
  }

  lemma {:induction false} OneMoreDeserved(cfg: Config, reqs: seq<Request>, serial: int, db: Db, from: seq<nat>,
                                           req: Request)
    returns (more: seq<nat>)
    requires AreMadeFor(cfg, IssueAll(cfg, reqs, serial, db).certs, reqs, serial, from) && Increasing(from)
    ensures AreMadeFor(cfg, IssueAll(cfg, reqs + [req], serial, db).certs, reqs + [req], serial, more)
    ensures Increasing(more)
  {
    OneMoreExactly(cfg, reqs, req, serial, db);
    SerialsAreConserved(cfg, reqs, serial, db);
    var b := IssueAll(cfg, reqs, serial, db);
    more := from;
    if b.ok && IsIssued(cfg, req, b.serial, b.db) {
      WithOneMore(cfg, b.certs, reqs, serial, from, req, CertFor(cfg, req, b.serial));
      more := from + [|reqs|];
    } else {
      WithOneOther(cfg, b.certs, reqs, serial, from, req);
    }
  }

  lemma {:induction false} WithOneOther(cfg: Config, certs: seq<Cert>, reqs: seq<Request>, serial: int,
                                        from: seq<nat>, req: Request)
    requires AreMadeFor(cfg, certs, reqs, serial, from)
    ensures AreMadeFor(cfg, certs, reqs + [req], serial, from)
  {
  }

  lemma {:induction false} WithOneMore(cfg: Config, certs: seq<Cert>, reqs: seq<Request>, serial: int,
                                       from: seq<nat>, req: Request, c: Cert)
    requires AreMadeFor(cfg, certs, reqs, serial, from) && Increasing(from)
    requires IsMadeFor(cfg, c, req, serial + |certs|)
    ensures AreMadeFor(cfg, certs + [c], reqs + [req], serial, from + [|reqs|]) && Increasing(from + [|reqs|])
  {
    var all, more, to := certs + [c], reqs + [req], from + [|reqs|];
    forall i | 0 <= i < |all|
      ensures to[i] < |more| && IsMadeFor(cfg, all[i], more[to[i]], serial + i)
    {
      if i < |certs| { assert more[to[i]] == reqs[from[i]] && all[i] == certs[i]; }
    }
    forall i, j | 0 <= i < j < |to|
      ensures to[i] < to[j]
    {
      if j == |from| { assert from[i] < |reqs|; }
    }
  }

  /** Without a self-signature, every entry of a matched type is one of the CA's. */
  lemma MatchedAgainstTheCa(cfg: Config, reqs: seq<Request>, serial: int, db: Db, i: nat, line: nat)
    returns (j: nat)
    requires !cfg.selfsign && i < |IssueAll(cfg, reqs, serial, db).certs|
    requires line < |cfg.policy| && cfg.policy[line].value == "match"
    ensures j < |reqs| && IssueAll(cfg, reqs, serial, db).certs[i] == CertFor(cfg, reqs[j], serial + i)
    ensures var name, obj := NameFor(cfg, reqs[j]), cfg.txt2nid(cfg.policy[line].name);
            HasEntry(name, obj) && forall k :: 0 <= k < |name| && name[k].obj == obj ==> name[k] in cfg.caName
  {
    var from := CertificatesAreDeserved(cfg, reqs, serial, db);
    j := from[i];
    assert IsMadeFor(cfg, IssueAll(cfg, reqs, serial, db).certs[i], reqs[j], serial + i);
  }
}
