/** server2.js, the older copy of the server. Its password, case and lawyer routes are the
    same text as in server.js and are modelled by the methods of `Server.Database`; only the
    login route differs: a successful login carries no role. */
module Server2 {
  import opened Common
  import opened ServerRules

  datatype AuthReply = AuthReply(status: int, message: string)

  /** `POST /auth` of server2.js. */
  function Authenticate(pms: map<string, Credential>, username: string, password: string): (r: AuthReply)
    ensures (username == "" || password == "") <==> r == AuthReply(400, "Please enter Username and Password!")
    ensures r == AuthReply(401, "Invalid Username!") <==> username != "" && password != "" && username !in pms
    ensures r == AuthReply(401, "Invalid Password!") <==>
              username != "" && password != "" && username in pms && pms[username].password != password
    ensures r == AuthReply(200, "Login successful!") <==>
              username != "" && password != "" && username in pms && pms[username].password == password
  {
    if username == "" || password == "" then AuthReply(400, "Please enter Username and Password!")
    else if username !in pms then AuthReply(401, "Invalid Username!")
    else if password != pms[username].password then AuthReply(401, "Invalid Password!")
    else AuthReply(200, "Login successful!")
  }

  /** Both servers reach the same status and message for every request; server.js adds the
      role on success and nowhere else. */
  lemma SameOutcomeAsServer(pms: map<string, Credential>, username: string, password: string)
    ensures var a := ServerRules.Authenticate(pms, username, password);
            var b := Authenticate(pms, username, password);
            a.status == b.status && a.message == b.message && (a.role.Some? <==> b.status == 200)
  {
  }
}
