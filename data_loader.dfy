/**
  `CompanyDataLoader`: holds the list of company records read at start-up
  and answers lookups over it.

  Reading and decoding the JSON file is not modelled: the constructor is
  given the records that loading produced (an empty list when the file is
  missing or malformed). The lookups only read the list; none of them has a
  `modifies` clause, so none can change it.
 */
module CompanyData {
  import opened Wrappers

  /** One company record. Only the fields the lookups and the file naming
      use are kept; the financial figures are not part of this model. */
  datatype Company = Company(code: string, name: string, industry: string)

  /** The file the loader reads when no path is given. */
  const DefaultJsonPath: string := "company_data.json"

  /** No record of `companies` before position `n` has the code `code`. */
  predicate NoMatchBefore(companies: seq<Company>, code: string, n: int)
    requires n <= |companies|
  {
    forall j :: 0 <= j < n ==> companies[j].code != code
  }

  class CompanyDataLoader {
    const jsonPath: string
    var companies: seq<Company>

    /** Keeps the path and the records loaded from it; the path is
        `DefaultJsonPath` unless the caller names one. */
    constructor (loaded: seq<Company>, jsonPath: string := DefaultJsonPath)
      ensures this.jsonPath == jsonPath
      ensures companies == loaded
    {
      this.jsonPath := jsonPath;
      companies := loaded;
    }

    /** Some record of the list, chosen without any further guarantee (the
        source picks uniformly at random); None exactly when the list is empty. */
    method GetRandomCompany() returns (company: Option<Company>)
      ensures company.None? <==> |companies| == 0
      ensures company.Some? ==> company.value in companies
    {
      if |companies| == 0 {
        return None;
      }
      assert companies[0] in companies;
      var c :| c in companies;
      return Some(c);
    }

    /** Linear search by code: the first record, in list order, whose code is
        `code`; None exactly when no record has that code. */
    method GetCompanyByCode(code: string) returns (company: Option<Company>)
      ensures company.None? <==> NoMatchBefore(companies, code, |companies|)
      ensures company.Some? ==>
        exists i :: 0 <= i < |companies| && companies[i] == company.value &&
          company.value.code == code && NoMatchBefore(companies, code, i)
    {
      for i := 0 to |companies|
        invariant NoMatchBefore(companies, code, i)
      {
        if companies[i].code == code {
          return Some(companies[i]);
        }
      }
      return None;
    }

    /** The loaded list itself, unchanged. */
    method GetAllCompanies() returns (all: seq<Company>)
      ensures all == companies
    {
      return companies;
    }
  }
}
