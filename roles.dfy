/** The account roles and grade levels of the school database, with the
    string codes the database and the application compare against. */
module Roles {
  datatype UserRole = DIRECTOR | TEACHER | PARENT

  /** Primary-school grades CP to CM2, then the collège grades 6EME to 3EME. */
  datatype GradeLevel = CP | CE1 | CE2 | CM1 | CM2 | Sixieme | Cinquieme | Quatrieme | Troisieme

  function RoleCode(r: UserRole): string
  {
    match r
    case DIRECTOR => "DIRECTOR"
    case TEACHER => "TEACHER"
    case PARENT => "PARENT"
  }

  function GradeCode(g: GradeLevel): string
  {
    match g
    case CP => "CP"
    case CE1 => "CE1"
    case CE2 => "CE2"
    case CM1 => "CM1"
    case CM2 => "CM2"
    case Sixieme => "6EME"
    case Cinquieme => "5EME"
    case Quatrieme => "4EME"
    case Troisieme => "3EME"
  }

  /** The role codes the database stores and the application compares
      against are pairwise distinct. */
  lemma RoleCodesDistinct(r1: UserRole, r2: UserRole)
    ensures RoleCode(r1) == RoleCode(r2) <==> r1 == r2
  {
  }

  /** The grade codes are pairwise distinct. */
  lemma GradeCodesDistinct(g1: GradeLevel, g2: GradeLevel)
    ensures GradeCode(g1) == GradeCode(g2) <==> g1 == g2
  {
  }
}
