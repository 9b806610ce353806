/**
 * `AdmissionAgent.get_response`: an ordered keyword rule over the
 * lowercased query.  "eligibility" wins over "documents", which wins over
 * "last date"; anything else gets the fallback.
 */
module AdmissionAgent {
  import opened Text

  const EligibilityAnswer: string := "Minimum eligibility is 60% in 12th."
  const DocumentsAnswer: string := "Documents: 10th Marksheet, 12th Marksheet, Aadhaar, TC"
  const LastDateAnswer: string := "Admission last date is 31 July."
  const Fallback: string := "Please ask only admission related questions."

  function GetResponse(query: string): (answer: string)
    ensures answer in {EligibilityAnswer, DocumentsAnswer, LastDateAnswer, Fallback}
  {
    var q := Lower(query);
    if Contains(q, "eligibility") then EligibilityAnswer
    else if Contains(q, "documents") then DocumentsAnswer
    else if Contains(q, "last date") then LastDateAnswer
    else Fallback
  }

  /** The answer depends only on the lowercased query. */
  lemma {:induction false} AnswerIgnoresCase(query: string)
    ensures GetResponse(query) == GetResponse(Lower(query))
  {
    LowerIdempotent(query);
  }

  /** Two queries that agree up to ASCII case get the same answer. */
  lemma {:induction false} SameLetterCaseInsensitive(a: string, b: string)
    requires |a| == |b|
    requires forall i :: 0 <= i < |a| ==> ToLower(a[i]) == ToLower(b[i])
    ensures GetResponse(a) == GetResponse(b)
  {
    assert Lower(a) == Lower(b);
  }

  /** "eligibility" anywhere in the lowercased query decides the answer, whatever else it contains. */
  lemma {:induction false} EligibilityFirst(query: string)
    requires Occurs("eligibility", Lower(query))
    ensures GetResponse(query) == EligibilityAnswer
  {
    ContainsIff(Lower(query), "eligibility");
  }

  /** "documents" decides the answer when "eligibility" is absent. */
  lemma {:induction false} DocumentsSecond(query: string)
    requires Occurs("documents", Lower(query)) && !Occurs("eligibility", Lower(query))
    ensures GetResponse(query) == DocumentsAnswer
  {
    ContainsIff(Lower(query), "eligibility");
    ContainsIff(Lower(query), "documents");
  }

  /** "last date" decides the answer when neither earlier keyword is present. */
  lemma {:induction false} LastDateThird(query: string)
    requires Occurs("last date", Lower(query))
    requires !Occurs("eligibility", Lower(query)) && !Occurs("documents", Lower(query))
    ensures GetResponse(query) == LastDateAnswer
  {
    ContainsIff(Lower(query), "eligibility");
    ContainsIff(Lower(query), "documents");
    ContainsIff(Lower(query), "last date");
  }

  /** The fallback is given exactly when none of the three keywords occurs. */
  lemma {:induction false} FallbackIffNoKeyword(query: string)
    ensures GetResponse(query) == Fallback <==>
      !Occurs("eligibility", Lower(query)) && !Occurs("documents", Lower(query)) && !Occurs("last date", Lower(query))
  {
    ContainsIff(Lower(query), "eligibility");
    ContainsIff(Lower(query), "documents");
    ContainsIff(Lower(query), "last date");
  }
}
