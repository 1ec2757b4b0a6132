/** `generate_personalized_email` and the subject line of `main`. Both are
    Python f-strings: literal text with replacement fields, every field
    replaced by its value wherever it occurs. */
module EmailTemplate {

  /** One part of an f-string: literal text, or the `{hr_name}` or
      `{company}` replacement field. */
  datatype Piece = Lit(text: string) | HrName | Company

  function PieceText(p: Piece, hrName: string, company: string): string {
    match p
    case Lit(s) => s
    case HrName => hrName
    case Company => company
  }

  /** Evaluates an f-string: each part in turn, fields replaced by values. */
  function Fill(t: seq<Piece>, hrName: string, company: string): string {
    if t == [] then [] else PieceText(t[0], hrName, company) + Fill(t[1..], hrName, company)
  }

  /** How often the field `p` occurs in `t`. */
  function Occurrences(t: seq<Piece>, p: Piece): nat {
    if t == [] then 0 else (if t[0] == p then 1 else 0) + Occurrences(t[1..], p)
  }

  /** The number of characters of literal text in `t`. */
  function LiteralLength(t: seq<Piece>): nat {
    if t == [] then 0 else (if t[0].Lit? then |t[0].text| else 0) + LiteralLength(t[1..])
  }

  /** Evaluating two f-strings one after the other is evaluating the joined
      f-string. */
  lemma {:induction false} FillAppend(t1: seq<Piece>, t2: seq<Piece>, hrName: string, company: string)
    ensures Fill(t1 + t2, hrName, company) == Fill(t1, hrName, company) + Fill(t2, hrName, company)
  {
    if t1 == [] {
      assert t1 + t2 == t2;
    } else {
      assert (t1 + t2)[0] == t1[0];
      assert (t1 + t2)[1..] == t1[1..] + t2;
      FillAppend(t1[1..], t2, hrName, company);
    }
  }

  /** Every field is replaced wherever it occurs: the result is as long as
      the literal text plus one copy of the value per occurrence. */
  lemma {:induction false} FillLength(t: seq<Piece>, hrName: string, company: string)
    ensures |Fill(t, hrName, company)| ==
      LiteralLength(t) + Occurrences(t, HrName) * |hrName| + Occurrences(t, Company) * |company|
  {
    if t != [] {
      var rest := t[1..];
      FillLength(rest, hrName, company);
      var a, b := Occurrences(rest, HrName), Occurrences(rest, Company);
      assert |Fill(t, hrName, company)| == |PieceText(t[0], hrName, company)| + |Fill(rest, hrName, company)|;
      match t[0]
      case Lit(_) =>
        assert Occurrences(t, HrName) == a && Occurrences(t, Company) == b;
      case HrName =>
        assert Occurrences(t, HrName) == a + 1 && Occurrences(t, Company) == b;
        MultiplySucc(a, |hrName|);
      case Company =>
        assert Occurrences(t, HrName) == a && Occurrences(t, Company) == b + 1;
        MultiplySucc(b, |company|);
    }
  }

  lemma MultiplySucc(k: nat, n: nat)
    ensures (k + 1) * n == k * n + n
  {
  }

  /** A field that does not occur in the f-string has no effect on it. */
  lemma {:induction false} FillIgnoresAbsentName(t: seq<Piece>, name1: string, name2: string, company: string)
    requires Occurrences(t, HrName) == 0
    ensures Fill(t, name1, company) == Fill(t, name2, company)
  {
    if t != [] {
      FillIgnoresAbsentName(t[1..], name1, name2, company);
    }
  }

  /** The opening line of the letter. */
  const Salutation: seq<Piece> := [Lit("Dear "), HrName, Lit(",")]

  /** The body of `generate_personalized_email`. */
  const BodyTemplate: seq<Piece> := Salutation + Letter

  /** Everything after the opening line's comma. */
  const Letter: seq<Piece> := [
    Lit("\n\nI hope this email finds you well. I am writing to express my strong interest in frontend development internship opportunities at "),
    Company,
    Lit(".\n\nAs a passionate frontend developer with experience in modern web technologies including React, JavaScript, HTML5, and CSS3, I am excited about the possibility of contributing to "),
    Company,
    Lit("'s innovative projects while further developing my skills in a professional environment.\n\nKey highlights of my background:\n\U{2022} Proficient in React, JavaScript (ES6+), HTML5, and CSS3\n\U{2022} Experience with responsive design and modern CSS frameworks\n\U{2022} Familiarity with version control (Git) and development tools\n\U{2022} Strong problem-solving skills and attention to detail\n\U{2022} Eager to learn and adapt to new technologies\n\nI have attached my resume for your review, which provides more detailed information about my projects and technical skills. I would greatly appreciate the opportunity to discuss how I can contribute to "),
    Company,
    Lit("'s frontend development team.\n\nThank you for considering my application. I look forward to hearing from you and would be happy to provide any additional information you may need.\n\nBest regards,\n[Your Name]\n[Your Phone Number]\n[Your Email Address]\n\n---\nThis email was sent as part of my internship application process. I apologize if this is not the appropriate contact for internship inquiries and would appreciate being directed to the correct department if needed.\n")
  ]

  const SubjectPrefix: string := "Frontend Internship Application \U{2013} "

  /** The subject line `main` builds for each contact. */
  const SubjectTemplate: seq<Piece> := [Lit(SubjectPrefix), Company]

  /** `generate_personalized_email(hr_name, company)`: the letter opens with
      "Dear <name>,". */
  function PersonalizedEmail(hrName: string, company: string): (body: string)
    ensures "Dear " + hrName + "," <= body
  {
    BodyOpening(hrName, company);
    Fill(BodyTemplate, hrName, company)
  }

  lemma BodyOpening(hrName: string, company: string)
    ensures "Dear " + hrName + "," <= Fill(BodyTemplate, hrName, company)
  {
    SalutationOpens(Letter, hrName, company);
  }

  /** Whatever follows the salutation, the text opens with "Dear <name>,". */
  lemma SalutationOpens(rest: seq<Piece>, hrName: string, company: string)
    ensures "Dear " + hrName + "," <= Fill(Salutation + rest, hrName, company)
  {
    FillAppend(Salutation, rest, hrName, company);
    assert Fill(Salutation, hrName, company) == "Dear " + hrName + "," by {
      assert [Lit(",")][1..] == [];
      assert Fill([Lit(",")], hrName, company) == ",";
      assert [HrName, Lit(",")][1..] == [Lit(",")];
      assert Fill([HrName, Lit(",")], hrName, company) == hrName + ",";
      assert Salutation[1..] == [HrName, Lit(",")];
      assert "Dear " + (hrName + ",") == "Dear " + hrName + ",";
    }
  }

  /** The name is filled in once and the company at each of its three
      places, so the letter grows by one name and three company names. */
  lemma BodyLength(hrName: string, company: string)
    ensures |PersonalizedEmail(hrName, company)| == LiteralLength(BodyTemplate) + |hrName| + 3 * |company|
  {
    FillLength(BodyTemplate, hrName, company);
    BodyFieldCounts();
  }

  lemma BodyFieldCounts()
    ensures Occurrences(BodyTemplate, HrName) == 1 && Occurrences(BodyTemplate, Company) == 3
  {
    OccurrencesAppend(Salutation, Letter, HrName);
    OccurrencesAppend(Salutation, Letter, Company);
  }

  lemma {:induction false} OccurrencesAppend(t1: seq<Piece>, t2: seq<Piece>, p: Piece)
    ensures Occurrences(t1 + t2, p) == Occurrences(t1, p) + Occurrences(t2, p)
  {
    if t1 == [] {
      assert t1 + t2 == t2;
    } else {
      assert (t1 + t2)[1..] == t1[1..] + t2;
      OccurrencesAppend(t1[1..], t2, p);
    }
  }

  /** The subject line for `company`: the fixed prefix, then the company. */
  function Subject(company: string): (subject: string)
    ensures SubjectPrefix <= subject && subject[|SubjectPrefix|..] == company
  {
    assert SubjectTemplate[1..] == [Company];
    assert [Company][1..] == [];
    assert Fill([Company], "", company) == company;
    assert Fill(SubjectTemplate, "", company) == SubjectPrefix + company;
    Fill(SubjectTemplate, "", company)
  }

  /** The company a subject line was built for: the inverse of `Subject`. */
  function CompanyOfSubject(subject: string): (company: string)
    requires SubjectPrefix <= subject
    ensures Subject(company) == subject
  {
    var company := subject[|SubjectPrefix|..];
    assert subject == SubjectPrefix + company;
    company
  }

  lemma SubjectRoundTrip(company: string)
    ensures CompanyOfSubject(Subject(company)) == company
  {
  }

  /** The subject does not mention the contact's name. */
  lemma SubjectIgnoresName(name1: string, name2: string, company: string)
    ensures Fill(SubjectTemplate, name1, company) == Fill(SubjectTemplate, name2, company)
  {
    assert SubjectTemplate[1..] == [Company];
    assert [Company][1..] == [];
    assert Occurrences(SubjectTemplate, HrName) == 0;
    FillIgnoresAbsentName(SubjectTemplate, name1, name2, company);
  }
}
