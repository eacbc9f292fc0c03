/** The check of the movie file-name template: it must hold exactly one
    integer conversion ('%', optional width digits, 'd'), and no '/' may
    follow it, so that frames are numbered in the file-name part. "%%"
    stands for a literal percent sign. */
module MovieTemplate {
  import opened Wrappers

  predicate IsDigit(c: char)
  {
    '0' <= c <= '9'
  }

  /** The width digits at the start of t. */
  function DigitRun(t: string): (n: nat)
    ensures n <= |t|
    ensures forall i :: 0 <= i < n ==> IsDigit(t[i])
    ensures n < |t| ==> !IsDigit(t[n])
  {
    if |t| > 0 && IsDigit(t[0]) then 1 + DigitRun(t[1..]) else 0
  }

  /** What the scan has found so far: the number of conversions and whether
      the last integer conversion is still valid (no '/' since). */
  datatype Verdict = Verdict(conversions: nat, hasIntConversion: bool)

  /** The scan as written, over the rest t of the template. After a '%' it
      reads the next character, which at the end of the string is the
      terminating NUL; after a conversion's width digits it reads the
      conversion character, which may be the NUL too, and then the loop
      steps past it. When that happens at the end of the string, the
      iterator passes end() and the scan runs off the string: None. */
  function ScanAsWritten(t: string, v: Verdict): (r: Option<Verdict>)
    ensures r.Some? ==> r.value.conversions >= v.conversions
    ensures r.None? ==> '%' in t
    decreases |t|
  {
    if |t| == 0 then Some(v)
    else if t[0] == '%' then
      var rest := t[1..];
      if |rest| == 0 then None
      else if rest[0] == '%' then ScanAsWritten(rest[1..], v)
      else
        var n := DigitRun(rest);
        if n == |rest| then None
        else
          var has := if rest[n] == 'd' then true else v.hasIntConversion;
          ScanAsWritten(rest[n + 1..], Verdict(v.conversions + 1, has))
    else if t[0] == '/' then ScanAsWritten(t[1..], v.(hasIntConversion := false))
    else ScanAsWritten(t[1..], v)
  }

  /** The scan stopping at the end of the string: a conversion cut off by
      the end counts as a conversion that is not an integer one. */
  function Scan(t: string, v: Verdict): (r: Verdict)
    ensures r.conversions >= v.conversions
    decreases |t|
  {
    if |t| == 0 then v
    else if t[0] == '%' then
      var rest := t[1..];
      if |rest| == 0 then Verdict(v.conversions + 1, v.hasIntConversion)
      else if rest[0] == '%' then Scan(rest[1..], v)
      else
        var n := DigitRun(rest);
        if n == |rest| then Verdict(v.conversions + 1, v.hasIntConversion)
        else
          var has := if rest[n] == 'd' then true else v.hasIntConversion;
          Scan(rest[n + 1..], Verdict(v.conversions + 1, has))
    else if t[0] == '/' then Scan(t[1..], v.(hasIntConversion := false))
    else Scan(t[1..], v)
  }

  /** A conversion needs a '%', and an integer conversion a 'd'. */
  lemma {:induction false} ScanNeedsPercent(t: string, v: Verdict)
    ensures Scan(t, v).conversions > v.conversions ==> '%' in t
    ensures Scan(t, v).hasIntConversion && !v.hasIntConversion ==> 'd' in t
    decreases |t|
  {
    if |t| > 0 {
      if t[0] == '%' {
        var rest := t[1..];
        if |rest| > 0 {
          if rest[0] == '%' {
            ScanNeedsPercent(rest[1..], v);
            assert 'd' in rest[1..] ==> 'd' in t;
          } else {
            var n := DigitRun(rest);
            if n < |rest| {
              var has := if rest[n] == 'd' then true else v.hasIntConversion;
              ScanNeedsPercent(rest[n + 1..], Verdict(v.conversions + 1, has));
              assert rest[n] == t[n + 1];
              assert 'd' in rest[n + 1..] ==> 'd' in t;
            }
          }
        }
      } else {
        var v1 := if t[0] == '/' then v.(hasIntConversion := false) else v;
        ScanNeedsPercent(t[1..], v1);
        assert '%' in t[1..] ==> '%' in t;
        assert 'd' in t[1..] ==> 'd' in t;
      }
    }
  }

  /** Where the scan as written stays on the string, the two agree. */
  lemma {:induction false} AsWrittenAgrees(t: string, v: Verdict)
    ensures ScanAsWritten(t, v).Some? ==> ScanAsWritten(t, v).value == Scan(t, v)
    decreases |t|
  {
    if |t| > 0 {
      if t[0] == '%' {
        var rest := t[1..];
        if |rest| > 0 {
          if rest[0] == '%' {
            assert ScanAsWritten(t, v) == ScanAsWritten(rest[1..], v);
            assert Scan(t, v) == Scan(rest[1..], v);
            AsWrittenAgrees(rest[1..], v);
          } else {
            var n := DigitRun(rest);
            if n < |rest| {
              var has := if rest[n] == 'd' then true else v.hasIntConversion;
              assert ScanAsWritten(t, v) == ScanAsWritten(rest[n + 1..], Verdict(v.conversions + 1, has));
              assert Scan(t, v) == Scan(rest[n + 1..], Verdict(v.conversions + 1, has));
              AsWrittenAgrees(rest[n + 1..], Verdict(v.conversions + 1, has));
            }
          }
        }
      } else {
        var v1 := if t[0] == '/' then v.(hasIntConversion := false) else v;
        assert ScanAsWritten(t, v) == ScanAsWritten(t[1..], v1);
        assert Scan(t, v) == Scan(t[1..], v1);
        AsWrittenAgrees(t[1..], v1);
      }
    }
  }

  /** A template ending in '%' or in '%' and width digits makes the scan
      as written run past the end of the string. */
  lemma TrailingConversionOverruns()
    ensures ScanAsWritten("frame%", Verdict(0, false)).None?
    ensures ScanAsWritten("frame%05", Verdict(0, false)).None?
    ensures Scan("frame%", Verdict(0, false)) == Verdict(1, false)
  {
    var v := Verdict(0, false);
    assert "frame%" == "frame" + "%";
    assert "frame%05" == "frame" + "%05";
    AsWrittenSkipsLiteral("frame", "%", v);
    AsWrittenSkipsLiteral("frame", "%05", v);
    assert "%05"[1..] == "05";
    assert DigitRun("05") == 2 by {
      assert "05"[1..] == "5";
      assert "5"[1..] == "";
    }
    NoPercentIsPlain("frame");
    ScanPlain("frame", "%", v);
  }

  /** Text without '%' or '/' leaves the scan as written where it was. */
  lemma {:induction false} AsWrittenSkipsLiteral(p: string, t: string, v: Verdict)
    requires '%' !in p && '/' !in p
    ensures ScanAsWritten(p + t, v) == ScanAsWritten(t, v)
    decreases |p|
  {
    if |p| > 0 {
      assert (p + t)[0] == p[0] && p[0] != '%' && p[0] != '/';
      assert (p + t)[1..] == p[1..] + t;
      assert '%' !in p[1..] && '/' !in p[1..] by {
        forall k | 0 <= k < |p[1..]| ensures p[1..][k] == p[k + 1] { }
      }
      AsWrittenSkipsLiteral(p[1..], t, v);
    } else {
      assert p + t == t;
    }
  }

  /** The constructor's verdict: exactly one conversion, an integer one,
      with no '/' after it. */
  function Accepted(template: string): (b: bool)
    ensures b ==> '%' in template && 'd' in template
  {
    ScanNeedsPercent(template, Verdict(0, false));
    var v := Scan(template, Verdict(0, false));
    v.conversions == 1 && v.hasIntConversion
  }

  /** Text without conversions: ordinary characters and "%%" pairs. */
  predicate Plain(t: string)
    decreases |t|
  {
    if |t| == 0 then true
    else if t[0] != '%' then Plain(t[1..])
    else |t| >= 2 && t[1] == '%' && Plain(t[2..])
  }

  /** Scanning plain text counts nothing, and any '/' in it clears the flag. */
  lemma {:induction false} ScanPlain(p: string, t: string, v: Verdict)
    requires Plain(p)
    ensures Scan(p + t, v) == Scan(t, v.(hasIntConversion := v.hasIntConversion && '/' !in p))
    decreases |p|
  {
    if |p| > 0 {
      if p[0] != '%' {
        assert (p + t)[1..] == p[1..] + t;
        var v1 := if p[0] == '/' then v.(hasIntConversion := false) else v;
        ScanPlain(p[1..], t, v1);
        assert '/' in p <==> p[0] == '/' || '/' in p[1..];
      } else {
        assert (p + t)[1..][1..] == p[2..] + t;
        ScanPlain(p[2..], t, v);
        assert '/' in p <==> '/' in p[2..];
      }
    } else {
      assert p + t == t;
    }
  }

  /** A scan that finds no further conversion ran over plain text, and the
      flag survives only if it was set and no '/' came. */
  lemma {:induction false} NoConversionIsPlain(t: string, v: Verdict)
    requires Scan(t, v).conversions == v.conversions
    ensures Plain(t)
    ensures Scan(t, v).hasIntConversion == (v.hasIntConversion && '/' !in t)
    decreases |t|
  {
    if |t| > 0 {
      if t[0] == '%' {
        var rest := t[1..];
        if |rest| > 0 && rest[0] == '%' {
          NoConversionIsPlain(rest[1..], v);
          assert rest[1..] == t[2..];
          assert '/' in t <==> '/' in t[2..];
        }
      } else {
        var v1 := if t[0] == '/' then v.(hasIntConversion := false) else v;
        NoConversionIsPlain(t[1..], v1);
        assert '/' in t <==> t[0] == '/' || '/' in t[1..];
      }
    }
  }

  /** The accepted templates, described directly: plain text, '%', width
      digits, 'd', then plain text without '/'. */
  ghost predicate WellFormedTemplate(template: string)
  {
    exists p, w, q :: Decomposes(template, p, w, q)
  }

  ghost predicate Decomposes(template: string, p: string, w: string, q: string)
  {
    && template == p + "%" + w + "d" + q
    && Plain(p) && Plain(q) && '/' !in q
    && forall i :: 0 <= i < |w| ==> IsDigit(w[i])
  }

  lemma {:induction false} DigitRunOf(w: string, t: string)
    requires forall i :: 0 <= i < |w| ==> IsDigit(w[i])
    requires |t| > 0 && !IsDigit(t[0])
    ensures DigitRun(w + t) == |w|
    decreases |w|
  {
    if |w| > 0 {
      assert (w + t)[0] == w[0] && IsDigit(w[0]);
      assert (w + t)[1..] == w[1..] + t;
      DigitRunOf(w[1..], t);
      assert DigitRun(w + t) == 1 + DigitRun(w[1..] + t);
    } else {
      assert w + t == t;
    }
  }

  /** One conversion with width digits w and the character 'd'. */
  lemma ScanConversion(w: string, q: string, v: Verdict)
    requires forall i :: 0 <= i < |w| ==> IsDigit(w[i])
    ensures Scan("%" + w + "d" + q, v) == Scan(q, Verdict(v.conversions + 1, true))
  {
    var c := "%" + w + "d" + q;
    var rest := c[1..];
    assert c[0] == '%';
    assert rest == w + ("d" + q);
    DigitRunOf(w, "d" + q);
    assert rest[0] != '%' by {
      if |w| > 0 { assert rest[0] == w[0]; } else { assert rest[0] == 'd'; }
    }
    assert rest[|w|] == 'd';
    assert rest[|w| + 1..] == q;
  }

  /** Every template of that shape is accepted. */
  lemma AcceptsDecomposed(template: string, p: string, w: string, q: string)
    requires Decomposes(template, p, w, q)
    ensures Accepted(template)
  {
    var c := "%" + w + "d" + q;
    assert template == p + c;
    ScanPlain(p, c, Verdict(0, false));
    var v := Verdict(0, '/' !in p && false);
    assert v == Verdict(0, false);
    ScanConversion(w, q, v);
    ScanPlain(q, "", Verdict(1, true));
    assert q + "" == q;
  }

  lemma EscapeExtends(t: string)
    requires |t| >= 2 && t[0] == '%' && t[1] == '%' && WellFormedTemplate(t[2..])
    ensures WellFormedTemplate(t)
  {
    var p, w, q :| Decomposes(t[2..], p, w, q);
    assert ("%%" + p)[2..] == p;
    assert t == "%%" + t[2..];
    assert Decomposes(t, "%%" + p, w, q);
  }

  lemma LiteralExtends(t: string)
    requires |t| >= 1 && t[0] != '%' && WellFormedTemplate(t[1..])
    ensures WellFormedTemplate(t)
  {
    var p, w, q :| Decomposes(t[1..], p, w, q);
    assert ([t[0]] + p)[1..] == p;
    assert t == [t[0]] + t[1..];
    assert Decomposes(t, [t[0]] + p, w, q);
  }

  lemma ConversionShape(t: string, n: nat)
    requires |t| >= n + 2 && t[0] == '%' && t[n + 1] == 'd'
    requires forall i :: 1 <= i < n + 1 ==> IsDigit(t[i])
    requires Plain(t[n + 2..]) && '/' !in t[n + 2..]
    ensures WellFormedTemplate(t)
  {
    var w := t[1..n + 1];
    var q := t[n + 2..];
    assert t == "" + "%" + w + "d" + q;
    forall i | 0 <= i < |w|
      ensures IsDigit(w[i])
    {
      assert w[i] == t[i + 1];
    }
    assert Plain("");
    assert Decomposes(t, "", w, q);
  }

  /** Every accepted template has that shape. */
  lemma {:induction false} AcceptedDecomposes(t: string, v: Verdict)
    requires v == Verdict(0, false) && Scan(t, v) == Verdict(1, true)
    ensures WellFormedTemplate(t)
    decreases |t|
  {
    assert |t| > 0;
    if t[0] == '%' {
      var rest := t[1..];
      if |rest| > 0 && rest[0] == '%' {
        assert rest[1..] == t[2..];
        AcceptedDecomposes(t[2..], v);
        EscapeExtends(t);
      } else {
        var n := DigitRun(rest);
        var has := rest[n] == 'd';
        var q := rest[n + 1..];
        NoConversionIsPlain(q, Verdict(1, has));
        assert q == t[n + 2..];
        ConversionShape(t, n);
      }
    } else {
      AcceptedDecomposes(t[1..], v);
      LiteralExtends(t);
    }
  }

  /** The constructor accepts exactly the templates of that shape. */
  lemma AcceptedIffWellFormed(template: string)
    ensures Accepted(template) <==> WellFormedTemplate(template)
  {
    if Accepted(template) {
      AcceptedDecomposes(template, Verdict(0, false));
    }
    if WellFormedTemplate(template) {
      var p, w, q :| Decomposes(template, p, w, q);
      AcceptsDecomposed(template, p, w, q);
    }
  }

  /** Width digits are allowed. */
  lemma WidthExample()
    ensures Accepted("frame%04d.ppm")
  {
    assert "frame%04d.ppm" == "frame" + "%" + "04" + "d" + ".ppm";
    AcceptsDecomposed("frame%04d.ppm", "frame", "04", ".ppm");
  }

  /** Text without '%' is plain. */
  lemma {:induction false} NoPercentIsPlain(t: string)
    requires '%' !in t
    ensures Plain(t)
    decreases |t|
  {
    if |t| > 0 {
      assert t[0] != '%';
      assert forall i :: 0 <= i < |t| - 1 ==> t[1..][i] == t[i + 1];
      NoPercentIsPlain(t[1..]);
    }
  }

  /** "%%" is a literal. */
  lemma EscapeExample()
    ensures Accepted("100%%frame%d.ppm")
  {
    assert "100%%frame%d.ppm" == "100" + "%%" + "frame" + "%d" + ".ppm";
    EscapeAccepted("100", "frame", ".ppm");
  }

  /** A "%%" pair inside the text before the conversion does not count. */
  lemma EscapeAccepted(a: string, b: string, q: string)
    requires '%' !in a && '%' !in b && '%' !in q && '/' !in q
    ensures Accepted(a + "%%" + b + "%d" + q)
  {
    NoPercentIsPlain(a);
    NoPercentIsPlain(b);
    NoPercentIsPlain(q);
    assert ("%%" + b)[2..] == b;
    PlainConcat(a, "%%" + b);
    var p := a + ("%%" + b);
    assert a + "%%" + b + "%d" + q == p + "%" + "" + "d" + q;
    AcceptsDecomposed(p + "%" + "" + "d" + q, p, "", q);
  }

  /** Plain text followed by plain text is plain. */
  lemma {:induction false} PlainConcat(x: string, y: string)
    requires Plain(x) && Plain(y)
    ensures Plain(x + y)
    decreases |x|
  {
    if |x| == 0 {
      assert x + y == y;
    } else if x[0] != '%' {
      assert (x + y)[1..] == x[1..] + y;
      PlainConcat(x[1..], y);
    } else {
      assert (x + y)[2..] == x[2..] + y;
      PlainConcat(x[2..], y);
    }
  }

  /** "%%" is a literal, and width digits are allowed. */
  lemma TemplateExamples()
    ensures Accepted("frame%04d.ppm")
    ensures Accepted("100%%frame%d.ppm")
  {
    WidthExample();
    EscapeExample();
  }

  /** A '/' after the conversion refuses the template. */
  lemma SlashAfterConversionRefused()
    ensures !Accepted("frame%d/x")
  {
    ScanPlain("frame", "%d/x", Verdict(0, false));
    assert "frame" + "%d/x" == "frame%d/x";
    assert "%d/x"[1..] == "d/x";
    assert DigitRun("d/x") == 0;
    assert "d/x"[1..] == "/x";
    ScanPlain("/x", "", Verdict(1, true));
    assert "/x" + "" == "/x";
  }
}
