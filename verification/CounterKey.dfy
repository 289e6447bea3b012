/** Names of the shared counters (src/bridge/tpm_limiter.py): windows, and when two counters share a name. */
module CounterKey {
  import opened Text

  const WINDOW_SECONDS := 60

  /** A counter, before it is rendered to the name it has in the store. */
  datatype Key = Key(tenant: string, model: string, counter: string, window: int)

  /** `_window_expiry`; `int(now)` truncates, which is the floor for times after the epoch. */
  function WindowExpiry(now: real): int {
    (now.Floor / WINDOW_SECONDS + 1) * WINDOW_SECONDS
  }

  /** The window is open when its name is computed, and ends within one window length. */
  lemma WindowIsOpen(now: real)
    ensures now < WindowExpiry(now) as real <= now + 60.0
    ensures WindowExpiry(now) % 60 == 0
  {
    var f := now.Floor;
    assert f / 60 * 60 <= f < f / 60 * 60 + 60;
    assert f as real <= now < (f + 1) as real;
  }

  /** `_counter_key`. */
  function Render(k: Key): string {
    "LIMITER/" + k.tenant + ":" + k.model + ":" + k.counter + "/" + IntText(k.window)
  }

  /** For example. */
  lemma RenderedExample()
    ensures Render(Key("t-001", "model-1", "tpm", 60)) == "LIMITER/t-001:model-1:tpm/60"
  {
    assert IntText(60) == Decimal(6) + "0" && Decimal(6) == "6";
  }

  /** Counter names are the two constants "tpm" and "tpm_estimated"; windows follow the epoch. */
  predicate Wellformed(k: Key) {
    ':' !in k.counter && '/' !in k.counter && k.window >= 0
  }

  lemma LaterSeparator(a: string, b: string, c: string, d: string, sep: char)
    requires a + [sep] + b == c + [sep] + d
    requires |a| < |c|
    ensures sep in b && a + [sep] <= c
  {
    var s := a + [sep] + b;
    assert s == c + [sep] + d;
    assert s[|c|] == sep && s[|c|] == b[|c| - |a| - 1];
    assert a + [sep] == s[..|a| + 1] == c[..|a| + 1];
  }

  /** A text splits in only one way at its last separator. */
  lemma LastSeparator(a: string, b: string, c: string, d: string, sep: char)
    requires a + [sep] + b == c + [sep] + d
    requires sep !in b && sep !in d
    ensures a == c && b == d
  {
    if |a| < |c| {
      LaterSeparator(a, b, c, d, sep);
    } else if |c| < |a| {
      LaterSeparator(c, d, a, b, sep);
    } else {
      SameLength(a, b, c, d, sep);
    }
  }

  lemma SameLength(a: string, b: string, c: string, d: string, sep: char)
    requires a + [sep] + b == c + [sep] + d && |a| == |c|
    ensures a == c && b == d
  {
    var s := a + [sep] + b;
    assert a == s[..|a|] && c == s[..|a|];
    assert b == s[|a| + 1..] && d == s[|a| + 1..];
  }

  /** Equal names have the same window, the same counter name and the same "tenant:model" text. */
  lemma RenderParts(k: Key, l: Key)
    requires Wellformed(k) && Wellformed(l) && Render(k) == Render(l)
    ensures k.window == l.window && k.counter == l.counter
    ensures k.tenant + ":" + k.model == l.tenant + ":" + l.model
  {
    var p, q := k.tenant + ":" + k.model, l.tenant + ":" + l.model;
    var pre := "LIMITER/";
    var d, e := Decimal(k.window), Decimal(l.window);
    assert Render(k) == (pre + p + ":" + k.counter) + ['/'] + d;
    assert Render(l) == (pre + q + ":" + l.counter) + ['/'] + e;
    assert '/' !in d && '/' !in e;
    LastSeparator(pre + p + ":" + k.counter, d, pre + q + ":" + l.counter, e, '/');
    DecimalInjective(k.window, l.window);
    LastSeparator(pre + p, k.counter, pre + q, l.counter, ':');
    assert p == (pre + p)[|pre|..] && q == (pre + q)[|pre|..];
  }

  /** One tenant's name followed by ':' starts the other's. */
  predicate TenantsOverlap(t: string, u: string) {
    t + ":" <= u || u + ":" <= t
  }

  /** Two tenants can be given the same counter name exactly when their names overlap at a colon. */
  lemma TenantsShareNameIff(t: string, u: string, counter: string, window: nat)
    requires t != u && Wellformed(Key(t, "", counter, window))
    ensures (exists m: string, n: string :: Render(Key(t, m, counter, window)) == Render(Key(u, n, counter, window)))
       <==> TenantsOverlap(t, u)
  {
    if m: string, n: string :| Render(Key(t, m, counter, window)) == Render(Key(u, n, counter, window)) {
      RenderParts(Key(t, m, counter, window), Key(u, n, counter, window));
      if |t| < |u| {
        LaterSeparator(t, m, u, n, ':');
      } else if |u| < |t| {
        LaterSeparator(u, n, t, m, ':');
      } else {
        SameLength(t, m, u, n, ':');
      }
    }
    if t + ":" <= u { Collide(t, u, counter, window); }
    if u + ":" <= t { Collide(u, t, counter, window); }
  }

  lemma Collide(t: string, u: string, counter: string, window: nat)
    requires t + ":" <= u
    ensures exists m: string, n: string :: Render(Key(t, m, counter, window)) == Render(Key(u, n, counter, window))
    ensures exists m: string, n: string :: Render(Key(u, m, counter, window)) == Render(Key(t, n, counter, window))
  {
    var m := u[|t| + 1..] + ":" + "x";
    assert u == t + ":" + u[|t| + 1..];
    assert t + ":" + m == u + ":" + "x";
    var k, l := Key(t, m, counter, window), Key(u, "x", counter, window);
    assert Render(k) == "LIMITER/" + (t + ":" + m) + ":" + counter + "/" + IntText(window);
    assert Render(l) == "LIMITER/" + (u + ":" + "x") + ":" + counter + "/" + IntText(window);
  }

  /** Between tenants that do not overlap, counters and names correspond one to one, whatever
      characters the model names contain. */
  lemma RenderInjective(k: Key, l: Key)
    requires Wellformed(k) && Wellformed(l)
    requires !TenantsOverlap(k.tenant, l.tenant)
    ensures Render(k) == Render(l) <==> k == l
  {
    if Render(k) == Render(l) {
      RenderParts(k, l);
      if k.tenant != l.tenant {
        TenantsShareNameIff(k.tenant, l.tenant, k.counter, k.window);
      } else {
        var s := k.tenant + ":" + k.model;
        assert k.model == s[|k.tenant| + 1..] && l.model == s[|k.tenant| + 1..];
      }
    }
  }

  // ---- The tenants that the platform registers ----

  predicate IsIdChar(c: char) {
    'a' <= c <= 'z' || IsDigit(c) || c == '-'
  }

  /** The pattern of tenant ids, ^[a-z](?:[a-z0-9-]{1,30}[a-z0-9])$ (src/tenant_api/validation.py). */
  predicate IsTenantId(t: string) {
    && 3 <= |t| <= 32 && 'a' <= t[0] <= 'z' && t[|t| - 1] != '-'
    && forall c :: c in t ==> IsIdChar(c)
  }

  lemma TenantIdHasNoColon(t: string)
    requires IsTenantId(t)
    ensures ':' !in t
  {
    assert !IsIdChar(':');
  }

  lemma OverlapHasColon(t: string, u: string)
    requires TenantsOverlap(t, u)
    ensures ':' in t || ':' in u
  {
    if t + ":" <= u {
      assert u[|t|] == ':';
    } else {
      assert t[|u|] == ':';
    }
  }

  /** Registered tenants never share a counter: their names determine counters, whatever the models are. */
  lemma TenantIdsNeverShare(k: Key, l: Key)
    requires Wellformed(k) && Wellformed(l) && IsTenantId(k.tenant) && IsTenantId(l.tenant)
    ensures Render(k) == Render(l) <==> k == l
  {
    hide TenantsOverlap, IsTenantId, Render, Wellformed;
    TenantIdHasNoColon(k.tenant);
    TenantIdHasNoColon(l.tenant);
    if TenantsOverlap(k.tenant, l.tenant) {
      OverlapHasColon(k.tenant, l.tenant);
    } else {
      RenderInjective(k, l);
    }
  }
}
