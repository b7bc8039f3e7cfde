/**
 * The type codes of java.sql.Types that the provider classifies, and the
 * mapping from a vendor type code to a portable data type.
 */
module SqlTypes {
  const TINYINT: int := -6
  const SMALLINT: int := 5
  const INTEGER: int := 4
  const BIGINT: int := -5
  const FLOAT: int := 6
  const REAL: int := 7
  const DOUBLE: int := 8
  const NUMERIC: int := 2
  const DECIMAL: int := 3
  const CHAR: int := 1
  const VARCHAR: int := 12
  const LONGVARCHAR: int := -1
  const LONGNVARCHAR: int := -16
  const NVARCHAR: int := -9
  const BOOLEAN: int := 16
  const BIT: int := -7
  const DATE: int := 91
  const BLOB: int := 2004
  const BINARY: int := -2
  const VARBINARY: int := -3
  const LONGVARBINARY: int := -4
  const NCLOB: int := 2011
  const CLOB: int := 2005
}

module TypeMapper {
  import opened MetaData
  import opened SqlTypes

  /** The codes of each portable type's family: the inverse view of the mapping. */
  function FamilyCodes(d: DataType): set<int> {
    match d
    case Integer => {TINYINT, SMALLINT, INTEGER}
    case BigInteger => {BIGINT}
    case Decimal => {FLOAT, REAL, DOUBLE, NUMERIC, DECIMAL}
    case String => {CHAR, VARCHAR, LONGVARCHAR, LONGNVARCHAR, NVARCHAR}
    case Boolean => {BOOLEAN, BIT}
    case Date => {DATE}
    case Blob => {BLOB, BINARY, VARBINARY, LONGVARBINARY}
    case Clob => {NCLOB, CLOB}
  }

  /** Every code the provider knows how to classify. */
  function KnownCodes(): set<int> {
    {TINYINT, SMALLINT, INTEGER, BIGINT, FLOAT, REAL, DOUBLE, NUMERIC, DECIMAL,
     CHAR, VARCHAR, LONGVARCHAR, LONGNVARCHAR, NVARCHAR, BOOLEAN, BIT, DATE,
     BLOB, BINARY, VARBINARY, LONGVARBINARY, NCLOB, CLOB}
  }

  /**
   * Classifies a vendor type code. A code outside the known set is an error
   * that names the type, the code and the width; a known code yields the
   * portable type whose family holds it.
   */
  function DataTypeFromSqlType(typeCode: int, typeName: string, width: int): (r: Result<DataType>)
    ensures r.Ok? <==> typeCode in KnownCodes()
    ensures r.Ok? ==> typeCode in FamilyCodes(r.value)
    ensures r.Err? ==> r.error == UnknownSqlType(typeName, typeCode, width)
  {
    if typeCode == TINYINT || typeCode == SMALLINT || typeCode == INTEGER then Ok(Integer)
    else if typeCode == BIGINT then Ok(BigInteger)
    else if typeCode == FLOAT || typeCode == REAL || typeCode == DOUBLE
            || typeCode == NUMERIC || typeCode == DECIMAL then Ok(Decimal)
    else if typeCode == CHAR || typeCode == VARCHAR || typeCode == LONGVARCHAR
            || typeCode == LONGNVARCHAR || typeCode == NVARCHAR then Ok(String)
    else if typeCode == BOOLEAN || typeCode == BIT then Ok(Boolean)
    else if typeCode == DATE then Ok(Date)
    else if typeCode == BLOB || typeCode == BINARY || typeCode == VARBINARY
            || typeCode == LONGVARBINARY then Ok(Blob)
    else if typeCode == NCLOB || typeCode == CLOB then Ok(Clob)
    else Err(UnknownSqlType(typeName, typeCode, width))
  }

  /** The families are pairwise disjoint: no code belongs to two portable types. */
  lemma FamiliesDisjoint(d1: DataType, d2: DataType)
    requires d1 != d2
    ensures FamilyCodes(d1) !! FamilyCodes(d2)
  {
  }

  /**
   * The mapping is exactly the family partition: a code maps to `d` if and
   * only if it is in `d`'s family, whatever the type name and width, and the
   * outcome never depends on the name or the width except through the error's
   * message.
   */
  lemma MappingIsFamilyPartition(typeCode: int, typeName: string, width: int, d: DataType)
    ensures DataTypeFromSqlType(typeCode, typeName, width) == Ok(d) <==> typeCode in FamilyCodes(d)
  {
    var r := DataTypeFromSqlType(typeCode, typeName, width);
    if typeCode in FamilyCodes(d) && r != Ok(d) {
      assert r.Ok? && typeCode in FamilyCodes(r.value);
      FamiliesDisjoint(d, r.value);
    }
  }

  lemma MappingIgnoresNameAndWidth(typeCode: int, name1: string, width1: int, name2: string, width2: int)
    ensures DataTypeFromSqlType(typeCode, name1, width1).Ok?
            ==> DataTypeFromSqlType(typeCode, name1, width1) == DataTypeFromSqlType(typeCode, name2, width2)
  {
    var r := DataTypeFromSqlType(typeCode, name1, width1);
    if r.Ok? {
      MappingIsFamilyPartition(typeCode, name2, width2, r.value);
    }
  }
}
