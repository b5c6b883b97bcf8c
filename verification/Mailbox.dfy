/** The SOA mailbox encoding of an admin email address and its decoding
    (dns/record/soa/mod.rs): snapshots store the mailbox, a rollback decodes it. */
module Mailbox {
  import opened Records

  function TrimDots(s: string): (t: string)
    ensures t <= s
    ensures t != "" ==> t[|t| - 1] != '.'
    ensures t == s <==> s == "" || s[|s| - 1] != '.'
  {
    if s != "" && s[|s| - 1] == '.' then TrimDots(s[..|s| - 1]) else s
  }

  /** `escape_local_part`: dots and backslashes are data, so they are escaped. */
  function Escape(local: string): string {
    if local == "" then "" else Escaped(local[0]) + Escape(local[1..])
  }

  /** `SoaMailbox::from_email` on the two sides of the single `@`. */
  function FromEmail(local: string, domain: string): string {
    Escape(local) + "." + TrimDots(domain) + "."
  }

  /** The scan of `SoaMailbox::to_email`: the first unescaped dot ends the local part. */
  function Scan(s: string, local: string): (r: Option<(string, string)>) {
    if s == "" then None
    else if s[0] == '\\' then
      if |s| == 1 then None else Scan(s[2..], local + [s[1]])
    else if s[0] == '.' then
      if local == "" || |s| == 1 then None else Some((local, s[1..]))
    else Scan(s[1..], local + [s[0]])
  }

  function ToEmail(mailbox: string): (r: Option<(string, string)>) { Scan(TrimDots(mailbox), "") }

  /** The escaped form of one character. */
  function Escaped(c: char): string { if c == '.' || c == '\\' then ['\\', c] else [c] }

  lemma ScanOne(done: string, c: char, tail: string)
    ensures Scan(Escaped(c) + tail, done) == Scan(tail, done + [c])
  {
    var s := Escaped(c) + tail;
    if c == '.' || c == '\\' {
      assert s[0] == '\\' && s[1] == c && s[2..] == tail;
    } else {
      assert s[0] == c && s[1..] == tail;
    }
  }

  lemma EscapeFirst(local: string, rest: string)
    requires local != ""
    ensures Escape(local) + rest == Escaped(local[0]) + (Escape(local[1..]) + rest)
  {
  }

  lemma JoinFirst(done: string, local: string)
    requires local != ""
    ensures done + [local[0]] + local[1..] == done + local
  {
  }

  /** Scanning one string from here is scanning the other from there. */
  ghost predicate SameScan(s: string, local: string, s': string, local': string) {
    ScansAlike(s, local, s', local') == true
  }

  ghost predicate ScansAlike(s: string, local: string, s': string, local': string) {
    Scan(s, local) == Scan(s', local')
  }

  lemma ScanOn(done: string, c: char, tail: string, rest: string, all: string)
    requires SameScan(tail, done + [c], rest, all)
    ensures SameScan(Escaped(c) + tail, done, rest, all)
  {
    ScanOne(done, c, tail);
  }

  lemma {:induction false} ScanEscaped(done: string, local: string, rest: string)
    ensures SameScan(Escape(local) + rest, done, rest, done + local)
    decreases local
  {
    if local == "" {
      assert done + local == done && Escape(local) + rest == rest;
    } else {
      EscapeFirst(local, rest);
      JoinFirst(done, local);
      ScanEscaped(done + [local[0]], local[1..], rest);
      ScanOn(done, local[0], Escape(local[1..]) + rest, rest, done + local);
    }
  }

  lemma TrimTail(s: string, t: string)
    requires t != "" && t[|t| - 1] != '.'
    ensures TrimDots(s + t + ".") == s + t
  {
    var u := s + t + ".";
    assert u[..|u| - 1] == s + t;
  }

  lemma {:induction false} ScanParts(s: string, local: string)
    ensures Scan(s, local).Some? ==>
              var (l, d) := Scan(s, local).value;
              && l != "" && d != "" && local <= l
              && d[|d| - 1] == s[|s| - 1]
    decreases |s|
  {
    if s == "" {
    } else if s[0] == '\\' {
      if |s| > 1 { ScanParts(s[2..], local + [s[1]]); }
    } else if s[0] != '.' {
      ScanParts(s[1..], local + [s[0]]);
    }
  }

  /** Decoding gives the address back exactly when the local part is non-empty and
      the domain is non-empty and does not end in a dot. */
  lemma {:induction false} RoundTrip(local: string, domain: string)
    ensures ToEmail(FromEmail(local, domain)) == Some((local, domain))
            <==> local != "" && domain != "" && domain[|domain| - 1] != '.'
  {
    var box := FromEmail(local, domain);
    if local != "" && domain != "" && domain[|domain| - 1] != '.' {
      assert box == (Escape(local) + ".") + domain + ".";
      TrimTail(Escape(local) + ".", domain);
      assert Escape(local) + "." + domain == Escape(local) + ("." + domain);
      ScanEscaped("", local, "." + domain);
      assert ScansAlike(Escape(local) + ("." + domain), "", "." + domain, "" + local);
      assert "" + local == local;
    } else if ToEmail(box) == Some((local, domain)) {
      ScanParts(TrimDots(box), "");
    }
  }
}
